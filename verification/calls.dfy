/** Decoding of call rows (`HwCall`): the resource name before the first `__`,
    the origin `class->step`, the times relative to the file start, the
    positional zip of the io values against the definition's field names, and
    the flattening of a call into one record (`HwCall.dictionary`). */
module Calls {
  import opened Wrappers
  import opened Text
  import opened Dicts
  import opened Values
  import opened Definitions

  const OriginIndex := 1
  const DurationIndex := 3
  const NotProvided := "NotProvided"
  const ArgPrefix := "arg:"
  const StepColumn := "test_step"
  const CounterColumn := "step_call_counter"

  /** `HwCall.metadata_columns`. */
  const MetadataColumns: seq<string> :=
    ["duration_sec", "resource_name", "resource_class", "accessor",
     "access_type", "test_class", "test_step", "step_call_counter"]

  /** The columns `dictionary` writes first, in order. */
  const BasicColumns: seq<string> := ["epoch_sec", "relative_sec"] + MetadataColumns

  /** A flattened call: column name to value, in insertion order. */
  type Record = Dict<string, Value>

  /** A decoded call. Its triple is its definition's triple. */
  datatype HwCall = HwCall(
    resourceName: string,
    testClass: string,
    testStep: Option<string>,
    epochSec: real,
    relativeSec: real,
    durationSec: real,
    inputs: Record,
    outputs: Record,
    definition: HwCallDef)

  function Min(a: nat, b: nat): nat
  {
    if a <= b then a else b
  }

  /** No occurrence of a separator whose first character is absent. */
  lemma AbsentFirstChar(s: string, sep: string)
    requires sep != [] && sep[0] !in s
    ensures !Contains(s, sep)
  {
  }

  /** The resource name of a call: the text before the first `__` of its
      name field, or `NotProvided` when that text is empty. */
  function ResourceNameOf(name: string): (r: string)
    ensures r != "" && !Contains(r, "__")
    ensures !Contains(name, "__") && name != "" ==> r == name
  {
    var provided := Split(name, "__")[0];
    AbsentFirstChar(NotProvided, "__");
    if provided != "" then provided else NotProvided
  }

  /** A name written as `<resource>__<rest>` gives back the resource. */
  lemma ResourceNameRoundTrip(resource: string, rest: string)
    requires resource != "" && !Contains(resource, "__") && resource[|resource| - 1] != '_'
    ensures ResourceNameOf(resource + "__" + rest) == resource
  {
    FindAfterFreePrefix(resource, "__", rest);
    SplitAtFirst(resource, "__", rest);
  }

  /** A name that starts with `__` has no resource. */
  lemma ResourceNameMissing(rest: string)
    ensures ResourceNameOf("__" + rest) == NotProvided
  {
    assert !Contains("", "__");
    FindAfterFreePrefix("", "__", rest);
    SplitAtFirst("", "__", rest);
    assert "" + "__" + rest == "__" + rest;
  }

  /** Where a call comes from: the test class and, when given, the step. */
  datatype Origin = Origin(testClass: string, testStep: Option<string>)

  /** `HwCall.parse_call_origin`: `class->step`, with anything after a second
      `->` dropped. */
  function ParseCallOrigin(originString: string): (r: Origin)
    ensures r.testStep.None? <==> !Contains(originString, "->")
    ensures r.testStep.None? ==> r.testClass == originString
    ensures !Contains(r.testClass, "->")
    ensures r.testStep.Some? ==>
      !Contains(r.testStep.value, "->") && r.testClass + "->" + r.testStep.value <= originString
  {
    var splitOrigin := Split(originString, "->");
    if |splitOrigin| > 1 then
      var tail := splitOrigin[1..];
      assert tail[0] == splitOrigin[1];
      assert splitOrigin[1] <= Join(tail, "->");
      Origin(splitOrigin[0], Some(splitOrigin[1]))
    else
      Origin(splitOrigin[0], None)
  }

  /** An origin written as `class->step` parses back into its two parts. */
  lemma ParseCallOriginRoundTrip(testClass: string, testStep: string)
    requires !Contains(testClass, "->") && !Contains(testStep, "->")
    ensures ParseCallOrigin(testClass + "->" + testStep) == Origin(testClass, Some(testStep))
  {
    FindAfterFreePrefix(testClass, "->", testStep);
    SplitAtFirst(testClass, "->", testStep);
  }

  /** The name/value pairs `zip` produces, values coerced. */
  function Zipped(varDefs: seq<string>, vars: seq<string>): (ps: seq<(string, Value)>)
    ensures |ps| == Min(|varDefs|, |vars|)
    ensures forall i :: 0 <= i < |ps| ==> ps[i] == (varDefs[i], ConvertToType(vars[i]))
  {
    seq(Min(|varDefs|, |vars|), i requires 0 <= i < Min(|varDefs|, |vars|) => (varDefs[i], ConvertToType(vars[i])))
  }

  /** What `parse_from_mapping` returns: the zipped pairs assigned in order
      into an empty dict. */
  function FromMapping(varDefs: seq<string>, vars: seq<string>): (r: Record)
    ensures |r| <= Min(|varDefs|, |vars|) && DistinctKeys(r)
    ensures forall k :: k in Keys(r) ==> k in varDefs
  {
    var ps := Zipped(varDefs, vars);
    UpdateAllKeepsDistinct([], ps);
    UpdateAllKeys([], ps);
    forall k | k in Keys(UpdateAll([], ps)) ensures k in varDefs {
      ZippedKeys(varDefs, vars, k);
    }
    UpdateAll([], ps)
  }

  /** `parse_from_mapping`: one `update` per zipped pair. */
  method ParseFromMapping(varDefs: seq<string>, vars: seq<string>) returns (mappedVars: Record)
    ensures mappedVars == FromMapping(varDefs, vars)
  {
    mappedVars := [];
    var n := Min(|varDefs|, |vars|);
    ghost var ps := Zipped(varDefs, vars);
    for i := 0 to n
      invariant mappedVars == UpdateAll([], ps[..i])
    {
      UpdateAllStep([], ps, i);
      mappedVars := Update(mappedVars, varDefs[i], ConvertToType(vars[i]));
    }
    assert ps[..n] == ps;
  }

  /** Extra names or extra values are dropped: the keys are exactly the names
      paired with a value, so there are at most as many as the shorter list. */
  lemma FromMappingKeys(varDefs: seq<string>, vars: seq<string>, k: string)
    ensures |FromMapping(varDefs, vars)| <= Min(|varDefs|, |vars|)
    ensures k in Keys(FromMapping(varDefs, vars)) <==>
      exists i :: 0 <= i < Min(|varDefs|, |vars|) && varDefs[i] == k
    ensures DistinctKeys(FromMapping(varDefs, vars))
  {
    var ps := Zipped(varDefs, vars);
    UpdateAllKeepsDistinct([], ps);
    UpdateAllKeys([], ps);
    ZippedKeys(varDefs, vars, k);
  }

  /** The names of the zipped pairs are the names that have a value. */
  lemma ZippedKeys(varDefs: seq<string>, vars: seq<string>, k: string)
    ensures k in Keys(Zipped(varDefs, vars)) <==>
      exists i :: 0 <= i < Min(|varDefs|, |vars|) && varDefs[i] == k
  {
    var ps := Zipped(varDefs, vars);
    if k in Keys(ps) {
      var i :| 0 <= i < |Keys(ps)| && Keys(ps)[i] == k;
      assert varDefs[i] == k;
    }
    if exists i :: 0 <= i < Min(|varDefs|, |vars|) && varDefs[i] == k {
      var i :| 0 <= i < Min(|varDefs|, |vars|) && varDefs[i] == k;
      assert Keys(ps)[i] == k;
    }
  }

  /** With distinct names, each paired name holds the coerced value at its position. */
  lemma FromMappingValue(varDefs: seq<string>, vars: seq<string>, i: nat)
    requires forall a, b :: 0 <= a < b < |varDefs| ==> varDefs[a] != varDefs[b]
    requires i < |varDefs| && i < |vars|
    ensures Get(FromMapping(varDefs, vars), varDefs[i]) == Some(ConvertToType(vars[i]))
  {
    var ps := Zipped(varDefs, vars);
    assert DistinctKeys(ps) by {
      forall a, b | 0 <= a < b < |ps| ensures ps[a].0 != ps[b].0 {
        assert ps[a].0 == varDefs[a] && ps[b].0 == varDefs[b];
      }
    }
    GetUpdateAllAssigned([], ps, i);
  }

  /** The io values a call's fields are read from, after the name value is
      dropped when the definition has one (`[1:]` of an empty list is empty). */
  function IoValues(io: IoDefs, ioList: seq<string>): (vals: seq<string>)
    ensures io.hasName && ioList != [] ==> vals == ioList[1..]
    ensures !io.hasName ==> vals == ioList
  {
    if io.hasName then (if ioList == [] then [] else ioList[1..]) else ioList
  }

  /** `HwCall.parse_io`: the inputs take the first values, one per input
      name; the outputs take the values after them. */
  function ParseIo(io: IoDefs, ioList: seq<string>): (r: (Record, Record))
    ensures forall k :: k in Keys(r.0) ==> k in io.inputMapping
    ensures forall k :: k in Keys(r.1) ==> k in io.outputMapping
  {
    var vals := IoValues(io, ioList);
    var numInputs := Min(|io.inputMapping|, |vals|);
    (FromMapping(io.inputMapping, vals[..numInputs]), FromMapping(io.outputMapping, vals[numInputs..]))
  }

  /** No field gets more than one key, and the keys never outnumber the values. */
  lemma ParseIoSizes(io: IoDefs, ioList: seq<string>)
    ensures var (inputs, outputs) := ParseIo(io, ioList);
      && |inputs| + |outputs| <= |IoValues(io, ioList)|
      && |inputs| <= |io.inputMapping| && |outputs| <= |io.outputMapping|
      && DistinctKeys(inputs) && DistinctKeys(outputs)
  {
    var vals := IoValues(io, ioList);
    var n := Min(|io.inputMapping|, |vals|);
    FromMappingKeys(io.inputMapping, vals[..n], "");
    FromMappingKeys(io.outputMapping, vals[n..], "");
  }

  /** Positional decoding of inputs: with distinct names, the i-th input
      name gets the i-th value. */
  lemma ParseIoInput(io: IoDefs, ioList: seq<string>, i: nat)
    requires forall a, b :: 0 <= a < b < |io.inputMapping| ==> io.inputMapping[a] != io.inputMapping[b]
    requires i < |io.inputMapping| && i < |IoValues(io, ioList)|
    ensures Get(ParseIo(io, ioList).0, io.inputMapping[i]) == Some(ConvertToType(IoValues(io, ioList)[i]))
  {
    var vals := IoValues(io, ioList);
    var n := Min(|io.inputMapping|, |vals|);
    FromMappingValue(io.inputMapping, vals[..n], i);
  }

  /** Positional decoding of outputs: with distinct names, the j-th output
      name gets the value after all the input positions. */
  lemma ParseIoOutput(io: IoDefs, ioList: seq<string>, j: nat)
    requires forall a, b :: 0 <= a < b < |io.outputMapping| ==> io.outputMapping[a] != io.outputMapping[b]
    requires j < |io.outputMapping| && |io.inputMapping| + j < |IoValues(io, ioList)|
    ensures Get(ParseIo(io, ioList).1, io.outputMapping[j]) ==
      Some(ConvertToType(IoValues(io, ioList)[|io.inputMapping| + j]))
  {
    var vals := IoValues(io, ioList);
    var n := Min(|io.inputMapping|, |vals|);
    assert vals[n..][j] == vals[|io.inputMapping| + j];
    FromMappingValue(io.outputMapping, vals[n..], j);
  }

  /** `HwCall.__init__` on a call row and the definition it was resolved to. */
  function DecodeCall(row: Row, d: HwCallDef): (c: HwCall)
    requires |row| > DurationIndex && IsDecimal(row[TimeIndex]) && IsDecimal(row[DurationIndex])
    requires d.logT0.Some?
    ensures c.definition == d && c.resourceName != ""
    ensures c.epochSec == DecimalValue(row[TimeIndex]) && c.durationSec == DecimalValue(row[DurationIndex])
    ensures c.relativeSec == c.epochSec - d.logT0.value
    ensures |c.inputs| <= |d.io.inputMapping| && |c.outputs| <= |d.io.outputMapping|
    ensures |c.inputs| + |c.outputs| <= |row| - IoIndex
    ensures DistinctKeys(c.inputs) && DistinctKeys(c.outputs)
    ensures forall k :: k in Keys(c.outputs) ==> k in d.io.outputMapping
  {
    var origin := ParseCallOrigin(row[OriginIndex]);
    var epochSec := DecimalValue(row[TimeIndex]);
    var io := ParseIo(d.io, row[IoIndex..]);
    ParseIoSizes(d.io, row[IoIndex..]);
    HwCall(ResourceNameOf(row[NameIndex]), origin.testClass, origin.testStep,
           epochSec, epochSec - d.logT0.value, DecimalValue(row[DurationIndex]),
           io.0, io.1, d)
  }

  /** The value `getattr` finds for each basic column; `step_call_counter`
      is not an attribute of a call, so it takes the default `-1`. */
  function BasicPairs(c: HwCall): (ps: seq<(string, Value)>)
    ensures Keys(ps) == BasicColumns
  {
    var t := c.definition.defStrings;
    [("epoch_sec", Float(c.epochSec)),
     ("relative_sec", Float(c.relativeSec)),
     ("duration_sec", Float(c.durationSec)),
     ("resource_name", Str(c.resourceName)),
     ("resource_class", Str(t.resourceClass)),
     ("accessor", Str(t.accessor)),
     ("access_type", Str(t.accessType.Name())),
     ("test_class", Str(c.testClass)),
     ("test_step", if c.testStep.Some? then Str(c.testStep.value) else Null),
     ("step_call_counter", Int(-1))]
  }

  /** Each input keyed as `arg:<name>`. */
  function ArgPairs(inputs: Record): (ps: seq<(string, Value)>)
    ensures |ps| == |inputs|
    ensures forall i :: 0 <= i < |ps| ==> ps[i] == (ArgPrefix + inputs[i].0, inputs[i].1)
  {
    seq(|inputs|, i requires 0 <= i < |inputs| => (ArgPrefix + inputs[i].0, inputs[i].1))
  }

  /** The column of an output: the accessor for the plain `hw_out`, the
      accessor followed by the name otherwise. */
  function OutputKey(accessor: string, outputName: string): string
  {
    if outputName == GenericOutputDef then accessor else accessor + outputName
  }

  /** Each output keyed by its column. */
  function OutputPairs(accessor: string, outputs: Record): (ps: seq<(string, Value)>)
    ensures |ps| == |outputs|
    ensures forall i :: 0 <= i < |ps| ==> ps[i] == (OutputKey(accessor, outputs[i].0), outputs[i].1)
  {
    seq(|outputs|, i requires 0 <= i < |outputs| => (OutputKey(accessor, outputs[i].0), outputs[i].1))
  }

  /** The record `dictionary` builds: the basic columns, then the inputs,
      then the outputs, each assigned in turn (a later column with the same
      key overwrites the earlier value in place). */
  function Flatten(c: HwCall): (r: Record)
    ensures forall k :: k in BasicColumns ==> k in Keys(r)
    ensures StepColumn in Keys(r)
    ensures DistinctKeys(r)
  {
    assert BasicColumns[8] == StepColumn;
    var basic := UpdateAll([], BasicPairs(c));
    var withInputs := UpdateAll(basic, ArgPairs(c.inputs));
    UpdateAllKeepsDistinct([], BasicPairs(c));
    UpdateAllKeepsDistinct(basic, ArgPairs(c.inputs));
    UpdateAllKeepsDistinct(withInputs, OutputPairs(c.definition.defStrings.accessor, c.outputs));
    UpdateAllKeys([], BasicPairs(c));
    UpdateAllKeys(basic, ArgPairs(c.inputs));
    UpdateAllKeys(withInputs, OutputPairs(c.definition.defStrings.accessor, c.outputs));
    UpdateAll(withInputs, OutputPairs(c.definition.defStrings.accessor, c.outputs))
  }

  /** `HwCall.dictionary`: three loops of `update`s into an empty dict. */
  method Dictionary(c: HwCall) returns (callDict: Record)
    ensures callDict == Flatten(c)
  {
    callDict := UpdateEach([], BasicPairs(c));
    callDict := UpdateEach(callDict, ArgPairs(c.inputs));
    callDict := UpdateEach(callDict, OutputPairs(c.definition.defStrings.accessor, c.outputs));
  }

  /** The basic columns come first, in their fixed order. */
  lemma FlattenBasicFirst(c: HwCall)
    ensures |Flatten(c)| >= |BasicColumns| && Keys(Flatten(c))[..|BasicColumns|] == BasicColumns
  {
    var basic := BasicPairs(c);
    BasicPairsDistinct(c);
    UpdateAllFresh([], basic);
    var b := UpdateAll([], basic);
    var withInputs := UpdateAll(b, ArgPairs(c.inputs));
    var r := UpdateAll(withInputs, OutputPairs(c.definition.defStrings.accessor, c.outputs));
    UpdateAllKeys(b, ArgPairs(c.inputs));
    UpdateAllKeys(withInputs, OutputPairs(c.definition.defStrings.accessor, c.outputs));
    assert Keys(b) == BasicColumns;
    assert Keys(b) <= Keys(withInputs) <= Keys(r);
  }

  /** No `arg:` key is a basic column. */
  lemma ArgKeysNotBasic(inputs: Record, k: string)
    requires k in BasicColumns
    ensures k !in Keys(ArgPairs(inputs))
  {
    var args := ArgPairs(inputs);
    forall i | 0 <= i < |args| ensures Keys(args)[i] != k {
      var a := ArgPrefix + inputs[i].0;
      assert Keys(args)[i] == a && a[0] == 'a' && a[1] == 'r';
    }
  }

  /** The basic columns are distinct. */
  lemma BasicPairsDistinct(c: HwCall)
    ensures DistinctKeys(BasicPairs(c))
  {
    var basic := BasicPairs(c);
    forall a, b | 0 <= a < b < |basic| ensures basic[a].0 != basic[b].0 {
      assert basic[a].0 == Keys(basic)[a] == BasicColumns[a];
      assert basic[b].0 == Keys(basic)[b] == BasicColumns[b];
    }
  }

  /** A basic column no output overwrites keeps the call's own value. */
  lemma FlattenBasic(c: HwCall, j: nat)
    requires j < |BasicColumns|
    requires BasicColumns[j] !in Keys(OutputPairs(c.definition.defStrings.accessor, c.outputs))
    ensures Get(Flatten(c), BasicColumns[j]) == Some(BasicPairs(c)[j].1)
  {
    var basic := BasicPairs(c);
    var b := UpdateAll([], basic);
    var args := ArgPairs(c.inputs);
    ArgKeysNotBasic(c.inputs, BasicColumns[j]);
    GetUpdateAllUntouched(UpdateAll(b, args), OutputPairs(c.definition.defStrings.accessor, c.outputs), BasicColumns[j]);
    GetUpdateAllUntouched(b, args, BasicColumns[j]);
    BasicPairsDistinct(c);
    assert basic[j].0 == Keys(basic)[j];
    GetUpdateAllAssigned([], basic, j);
  }

  /** Every input is found under `arg:<name>` unless an output takes that column. */
  lemma FlattenInput(c: HwCall, i: nat)
    requires DistinctKeys(c.inputs) && i < |c.inputs|
    requires ArgPrefix + c.inputs[i].0 !in Keys(OutputPairs(c.definition.defStrings.accessor, c.outputs))
    ensures Get(Flatten(c), ArgPrefix + c.inputs[i].0) == Some(c.inputs[i].1)
  {
    var b := UpdateAll([], BasicPairs(c));
    var args := ArgPairs(c.inputs);
    assert DistinctKeys(args) by {
      forall a, e | 0 <= a < e < |args| ensures args[a].0 != args[e].0 {
        assert (ArgPrefix + c.inputs[a].0)[4..] == c.inputs[a].0;
        assert (ArgPrefix + c.inputs[e].0)[4..] == c.inputs[e].0;
      }
    }
    GetUpdateAllUntouched(UpdateAll(b, args), OutputPairs(c.definition.defStrings.accessor, c.outputs), ArgPrefix + c.inputs[i].0);
    GetUpdateAllAssigned(b, args, i);
  }

  /** Output columns of different non-empty names never collide. */
  lemma OutputKeyInjective(accessor: string, a: string, b: string)
    requires a != "" && b != "" && OutputKey(accessor, a) == OutputKey(accessor, b)
    ensures a == b
  {
    if a != GenericOutputDef && b != GenericOutputDef {
      assert (accessor + a)[|accessor|..] == a;
      assert (accessor + b)[|accessor|..] == b;
    }
  }

  /** Every output is found under its column, whatever came before it. */
  lemma FlattenOutput(c: HwCall, i: nat)
    requires DistinctKeys(c.outputs) && i < |c.outputs|
    requires forall k :: k in Keys(c.outputs) ==> k != ""
    ensures Get(Flatten(c), OutputKey(c.definition.defStrings.accessor, c.outputs[i].0)) == Some(c.outputs[i].1)
  {
    var accessor := c.definition.defStrings.accessor;
    var outs := OutputPairs(accessor, c.outputs);
    assert DistinctKeys(outs) by {
      forall a, e | 0 <= a < e < |outs| ensures outs[a].0 != outs[e].0 {
        assert Keys(c.outputs)[a] == c.outputs[a].0 && Keys(c.outputs)[e] == c.outputs[e].0;
        assert c.outputs[a].0 in Keys(c.outputs) && c.outputs[e].0 in Keys(c.outputs);
        if outs[a].0 == outs[e].0 {
          OutputKeyInjective(accessor, c.outputs[a].0, c.outputs[e].0);
        }
      }
    }
    GetUpdateAllAssigned(UpdateAll(UpdateAll([], BasicPairs(c)), ArgPairs(c.inputs)), outs, i);
  }
}
