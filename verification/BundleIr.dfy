/**
 * The independent check of an IR bundle: source order of the functions, canonical
 * dependencies, and an execution plan with every function on its minimum stage.
 */
module BundleIr {
  import opened ByteOrder
  import opened DependencyGraph
  import opened DependencyOrder
  import opened Lexicographic
  import opened Outcomes
  import opened PlanSpec
  import opened Sorting

  const MAX_SAFE_INTEGER := 0x1F_FFFF_FFFF_FFFF

  datatype FunctionRecord = FunctionRecord(
    kind: Bytes, irVersion: int, stage: Bytes, id: Id, path: Bytes, line: int, column: int, inputs: seq<Bytes>)

  datatype Rejection =
    | NotASourceRecord | InvalidId | DuplicateFunction | InvalidLocation | FunctionsOutOfOrder | BadInputName
    | UnknownProducer | UnknownConsumer | UnknownInput | SelfDependency | DuplicateDependency | DependenciesOutOfOrder
    | PlanForNothing | SparseStages | EmptyStage | UnknownFunction | PlacedTwice | StageOutOfOrder
    | NotEveryFunctionPlaced | UnassignedDependency | BackwardDependency | NotMinimumStage

  /** The bytes of an ASCII text. */
  function Ascii(text: string): Bytes {
    seq(|text|, i requires 0 <= i < |text| => text[i] as int % 256)
  }

  predicate IsSourceRecord(record: FunctionRecord) {
    && record.kind == Ascii("semantscript.neural-function")
    && record.irVersion == 1
    && record.stage == Ascii("source")
  }

  predicate IsHexDigit(byte: Byte) {
    48 <= byte <= 57 || 97 <= byte <= 102
  }

  /** `nf_` and 64 lowercase hexadecimal digits. */
  predicate IsFunctionId(id: Id) {
    && |id| == 67 && id[..3] == [110, 102, 95]
    && forall i :: 3 <= i < |id| ==> IsHexDigit(id[i])
  }

  /** Function ids are these three bytes and 64 digits of this list. */
  lemma {:induction false} FunctionIdsAre(id: Id)
    ensures IsFunctionId(id) <==>
            exists digits: Bytes ::
              && id == Ascii("nf_") + digits && |digits| == 64
              && forall i :: 0 <= i < |digits| ==> digits[i] in Ascii("0123456789abcdef")
  {
    HexDigitsAre();
    assert Ascii("nf_") == [110, 102, 95];
    if IsFunctionId(id) {
      assert id == Ascii("nf_") + id[3..];
    }
  }

  lemma {:induction false} HexDigitsAre()
    ensures forall byte: Byte :: IsHexDigit(byte) <==> byte in Ascii("0123456789abcdef")
  {
    var digits := Ascii("0123456789abcdef");
    assert forall i :: 0 <= i < 10 ==> digits[i] == 48 + i;
    assert forall i :: 10 <= i < 16 ==> digits[i] == 87 + i;
    forall byte: Byte | IsHexDigit(byte)
      ensures byte in digits
    {
      assert digits[if byte <= 57 then byte - 48 else byte - 87] == byte;
    }
  }

  predicate HasLocation(record: FunctionRecord) {
    record.path != [] && 1 <= record.line <= MAX_SAFE_INTEGER && 1 <= record.column <= MAX_SAFE_INTEGER
  }

  function CompareFunctions(left: FunctionRecord, right: FunctionRecord): int {
    var byPath := Compare(left.path, right.path);
    if byPath != 0 then byPath
    else if left.line != right.line then left.line - right.line
    else if left.column != right.column then left.column - right.column
    else Compare(left.id, right.id)
  }

  /** Source order: by path, then by ascending line, ascending column and identifier, texts by their bytes. */
  ghost predicate RecordBefore(left: FunctionRecord, right: FunctionRecord) {
    || LexLess(left.path, right.path)
    || (left.path == right.path && left.line < right.line)
    || (left.path == right.path && left.line == right.line && left.column < right.column)
    || (left.path == right.path && left.line == right.line && left.column == right.column && LexLess(left.id, right.id))
  }

  lemma {:induction false} RecordOrderIs(left: FunctionRecord, right: FunctionRecord)
    ensures CompareFunctions(left, right) < 0 <==> RecordBefore(left, right)
  {
    CompareZero(left.path, right.path);
    CompareIsLexicographic(left.path, right.path);
    CompareIsLexicographic(left.id, right.id);
  }

  function SignatureOf(record: FunctionRecord): Signature {
    Signature(record.id, record.inputs)
  }

  function Signatures(functions: seq<FunctionRecord>): seq<Signature> {
    seq(|functions|, i requires 0 <= i < |functions| => SignatureOf(functions[i]))
  }

  ghost predicate RecordValid(record: FunctionRecord) {
    IsSourceRecord(record) && IsFunctionId(record.id) && HasLocation(record) && InputsNamed(record.inputs)
  }

  /**
   * A record is valid exactly when it is a source record of version 1 with an id, a path and a position
   * from one on.
   */
  lemma {:induction false} RecordsAre(record: FunctionRecord)
    ensures RecordValid(record) <==>
            && record == record.(kind := Ascii("semantscript.neural-function"), irVersion := 1,
               stage := Ascii("source"))
            && IsFunctionId(record.id)
            && |record.path| > 0 && 0 < record.line < 0x20_0000_0000_0000 && 0 < record.column < 0x20_0000_0000_0000
            && [] !in record.inputs
            && forall i, j :: 0 <= i < j < |record.inputs| ==> record.inputs[i] != record.inputs[j]
  {
    forall i | 0 <= i < |record.inputs|
      ensures record.inputs[i] in record.inputs
    {
    }
  }

  ghost predicate FunctionsValid(functions: seq<FunctionRecord>) {
    && (forall i :: 0 <= i < |functions| ==> RecordValid(functions[i]))
    && (forall i, j :: 0 <= i < j < |functions| ==> functions[i].id != functions[j].id)
    && (forall i :: 0 < i < |functions| ==> RecordBefore(functions[i - 1], functions[i]))
  }

  method ValidateFunctions(functions: seq<FunctionRecord>) returns (outcome: Result<Ranks, Rejection>)
    ensures outcome.Ok? <==> FunctionsValid(functions)
    ensures outcome.Ok? ==> Ranked(Signatures(functions), outcome.value)
  {
    var ranks := Ranks(map[], map[]);
    for index := 0 to |functions|
      invariant FunctionsValid(functions[..index])
      invariant Ranked(Signatures(functions[..index]), ranks)
    {
      var record := functions[index];
      if !IsSourceRecord(record) {
        return Err(NotASourceRecord);
      }
      if !IsFunctionId(record.id) {
        return Err(InvalidId);
      }
      if record.id in ranks.rankById {
        RankedTwice(functions, ranks, index);
        return Err(DuplicateFunction);
      }
      if !HasLocation(record) {
        return Err(InvalidLocation);
      }
      if index > 0 {
        RecordOrderIs(functions[index - 1], record);
      }
      if index > 0 && CompareFunctions(functions[index - 1], record) >= 0 {
        return Err(FunctionsOutOfOrder);
      }
      var inputRanks := RankInputs(record.inputs);
      if inputRanks.None? {
        return Err(BadInputName);
      }
      RankNext(functions, ranks, index, inputRanks.value);
      ranks := Ranks(ranks.rankById[record.id := index], ranks.inputRankById[record.id := inputRanks.value]);
    }
    assert functions[..|functions|] == functions;
    return Ok(ranks);
  }

  lemma {:induction false} RankedTwice(functions: seq<FunctionRecord>, ranks: Ranks, index: nat)
    requires index < |functions| && Ranked(Signatures(functions[..index]), ranks)
    requires functions[index].id in ranks.rankById
    ensures !FunctionsValid(functions)
  {
    var earlier := ranks.rankById[functions[index].id];
    assert Signatures(functions[..index])[earlier].id == functions[earlier].id;
  }

  lemma {:induction false} RankNext(functions: seq<FunctionRecord>, ranks: Ranks, index: nat,
      inputRanks: map<Bytes, nat>)
    requires index < |functions| && Ranked(Signatures(functions[..index]), ranks) && FunctionsValid(functions[..index])
    requires functions[index].id !in ranks.rankById && InputRanks(functions[index].inputs, inputRanks)
    requires RecordValid(functions[index])
    requires index > 0 ==> RecordBefore(functions[index - 1], functions[index])
    ensures Ranked(Signatures(functions[..index + 1]),
                   Ranks(ranks.rankById[functions[index].id := index],
                     ranks.inputRankById[functions[index].id := inputRanks]))
    ensures FunctionsValid(functions[..index + 1])
  {
    var record := functions[index];
    var before := Signatures(functions[..index]);
    RankOne(before, ranks, SignatureOf(record), inputRanks);
    assert Signatures(functions[..index + 1]) == before + [SignatureOf(record)];
    assert functions[..index + 1] == functions[..index] + [record];
    forall i | 0 <= i < index
      ensures functions[i].id != record.id
    {
      assert before[i].id == functions[i].id;
    }
  }

  method ValidateDependencies(dependencies: seq<Dependency>, ranks: Ranks) returns (rejection: Option<Rejection>)
    requires ranks.inputRankById.Keys == ranks.rankById.Keys
    ensures rejection.None? <==> CanonicalDependencies(ranks, dependencies)
  {
    var seen: set<Dependency> := {};
    for index := 0 to |dependencies|
      invariant CanonicalDependencies(ranks, dependencies[..index])
      invariant forall d :: d in seen <==> d in dependencies[..index]
    {
      var dependency := dependencies[index];
      if dependency.producer !in ranks.rankById {
        return Some(UnknownProducer);
      }
      if dependency.consumer !in ranks.rankById {
        return Some(UnknownConsumer);
      }
      if dependency.input !in ranks.inputRankById[dependency.consumer] {
        return Some(UnknownInput);
      }
      if dependency.producer == dependency.consumer {
        return Some(SelfDependency);
      }
      if dependency in seen {
        var k :| 0 <= k < index && dependencies[k] == dependency;
        return Some(DuplicateDependency);
      }
      seen := seen + {dependency};
      if index > 0 {
        if CompareDependencies(ranks, dependencies[index - 1], dependency) >= 0 {
          return Some(DependenciesOutOfOrder);
        }
      }
      CanonicalNext(ranks, dependencies, index);
    }
    assert dependencies[..|dependencies|] == dependencies;
    return None;
  }

  lemma {:induction false} CanonicalNext(ranks: Ranks, dependencies: seq<Dependency>, index: nat)
    requires index < |dependencies| && CanonicalDependencies(ranks, dependencies[..index])
    requires KnownDependency(ranks, dependencies[index])
    requires index > 0 ==> CompareDependencies(ranks, dependencies[index - 1], dependencies[index]) < 0
    ensures CanonicalDependencies(ranks, dependencies[..index + 1])
  {
    var before, after := dependencies[..index], dependencies[..index + 1];
    forall i, j | 0 <= i < j < |after|
      ensures CompareDependencies(ranks, after[i], after[j]) < 0
    {
      if j == index && i < index - 1 {
        assert CompareDependencies(ranks, before[i], before[index - 1]) < 0;
        CompareDependenciesIsTransitive(ranks, after[i], after[index - 1], after[j]);
      } else if j < index {
        assert CompareDependencies(ranks, before[i], before[j]) < 0;
      }
    }
  }
}
