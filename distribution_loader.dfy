/** Reading a probability distribution from CSV records: a zeroed 256-entry vector is filled
    record by record, each record naming a symbol and its probability. */
module DistributionLoader {
  import opened Wrappers
  import opened Alphabet
  import opened Vectors

  /** One CSV field, seen through the two conversions applied to it: what `int(field)`
      returns (`None` when it raises `ValueError`) and what converting it to a float
      returns (`None` when that raises `ValueError`). */
  datatype Field = Field(asInt: Option<int>, asFloat: Option<real>)

  /** One line of the CSV file, already split into fields. */
  type Record = seq<Field>

  /** Why reading stops, in the order the checks happen for a single record. */
  datatype LoadError =
    | WrongFieldCount(count: nat)   // unpacking into `symbol, probability`
    | SymbolNotInteger              // `int(symbol)`
    | SymbolOutOfRange(symbol: int) // indexing the 256-entry vector
    | ProbabilityNotNumeric         // storing the probability into the float vector

  /** A successfully parsed record: store `value` at position `slot`. */
  datatype Assignment = Assignment(slot: nat, value: real)

  /** The position an integer index designates in a 256-entry vector: negative indices
      count from the end, anything outside [-256, 256) is out of bounds. */
  function Slot(symbol: int): (s: Option<nat>)
    ensures s.Some? <==> -(AlphabetSize as int) <= symbol < AlphabetSize
    ensures s.Some? ==> s.value < AlphabetSize && s.value % 256 == symbol % 256
  {
    if 0 <= symbol < AlphabetSize then Some(symbol)
    else if -(AlphabetSize as int) <= symbol < 0 then Some(symbol + AlphabetSize)
    else None
  }

  /** What one record does: an assignment, or the error that stops the reading. */
  function Parse(rec: Record): (r: Result<Assignment, LoadError>)
    ensures r.Success? ==> r.value.slot < AlphabetSize
  {
    if |rec| != 2 then Failure(WrongFieldCount(|rec|))
    else if rec[0].asInt.None? then Failure(SymbolNotInteger)
    else if Slot(rec[0].asInt.value).None? then Failure(SymbolOutOfRange(rec[0].asInt.value))
    else if rec[1].asFloat.None? then Failure(ProbabilityNotNumeric)
    else Success(Assignment(Slot(rec[0].asInt.value).value, rec[1].asFloat.value))
  }

  /** The outcome of reading `records` in order, starting from 256 zeros. */
  function Load(records: seq<Record>): (r: Result<seq<real>, LoadError>)
    ensures r.Success? ==> |r.value| == AlphabetSize
  {
    if records == [] then Success(Constant(AlphabetSize, 0.0))
    else
      var before := Load(records[..|records| - 1]);
      if before.Failure? then before
      else
        var a := Parse(records[|records| - 1]);
        if a.Failure? then Failure(a.error)
        else Success(before.value[a.value.slot := a.value.value])
  }

  /** The reading loop: a zeroed array updated in place, one record at a time; the first
      bad record ends it with the corresponding error. */
  method ReadAsProbabilityDistribution(records: seq<Record>) returns (r: Result<seq<real>, LoadError>)
    ensures r == Load(records)
  {
    var prob := new real[AlphabetSize](_ => 0.0);
    assert prob[..] == Constant(AlphabetSize, 0.0);
    var k := 0;
    while k < |records|
      invariant 0 <= k <= |records|
      invariant Load(records[..k]) == Success(prob[..])
    {
      assert records[..k + 1][..k] == records[..k];
      var line := records[k];
      if |line| != 2 {
        LoadStopsAtFirstError(records, k + 1);
        return Failure(WrongFieldCount(|line|));
      }
      if line[0].asInt.None? {
        LoadStopsAtFirstError(records, k + 1);
        return Failure(SymbolNotInteger);
      }
      var symbol := line[0].asInt.value;
      if !(-(AlphabetSize as int) <= symbol < AlphabetSize) {
        LoadStopsAtFirstError(records, k + 1);
        return Failure(SymbolOutOfRange(symbol));
      }
      if line[1].asFloat.None? {
        LoadStopsAtFirstError(records, k + 1);
        return Failure(ProbabilityNotNumeric);
      }
      var slot := if symbol < 0 then symbol + AlphabetSize else symbol;
      prob[slot] := line[1].asFloat.value;
      k := k + 1;
    }
    assert records[..k] == records;
    return Success(prob[..]);
  }

  /** Once a prefix fails, the whole reading fails with the same error. */
  lemma {:induction false} LoadStopsAtFirstError(records: seq<Record>, k: nat)
    requires k <= |records| && Load(records[..k]).Failure?
    ensures Load(records) == Load(records[..k])
    decreases |records| - k
  {
    if k < |records| {
      assert records[..k + 1][..k] == records[..k];
      LoadStopsAtFirstError(records, k + 1);
    } else {
      assert records[..k] == records;
    }
  }

  /** Reading succeeds exactly when every record parses. */
  lemma {:induction false} LoadSucceedsIff(records: seq<Record>)
    ensures Load(records).Success? <==> forall j :: 0 <= j < |records| ==> Parse(records[j]).Success?
  {
    if records != [] {
      var init := records[..|records| - 1];
      LoadSucceedsIff(init);
      assert forall j :: 0 <= j < |init| ==> init[j] == records[j];
    }
  }

  /** The error reported is the one of the first record that does not parse. */
  lemma {:induction false} LoadFirstError(records: seq<Record>, j: nat)
    requires j < |records| && Parse(records[j]).Failure?
    requires forall k :: 0 <= k < j ==> Parse(records[k]).Success?
    ensures Load(records) == Failure(Parse(records[j]).error)
  {
    var pre := records[..j];
    LoadSucceedsIff(pre);
    assert records[..j + 1][..j] == pre;
    LoadStopsAtFirstError(records, j + 1);
  }

  /** A symbol that no record names keeps its initial probability 0. */
  lemma {:induction false} LoadUnmentioned(records: seq<Record>, s: nat)
    requires s < AlphabetSize && Load(records).Success?
    requires forall j :: 0 <= j < |records| ==> Parse(records[j]).Success? ==> Parse(records[j]).value.slot != s
    ensures Load(records).value[s] == 0.0
  {
    if records != [] {
      var init := records[..|records| - 1];
      assert forall j :: 0 <= j < |init| ==> init[j] == records[j];
      LoadUnmentioned(init, s);
    }
  }

  /** The last record naming a symbol decides its probability: later records overwrite
      earlier ones. */
  lemma {:induction false} LoadLastWins(records: seq<Record>, j: nat, a: Assignment)
    requires j < |records| && Parse(records[j]) == Success(a) && Load(records).Success?
    requires forall k :: j < k < |records| ==> Parse(records[k]).Success? ==> Parse(records[k]).value.slot != a.slot
    ensures Load(records).value[a.slot] == a.value
  {
    var init := records[..|records| - 1];
    if j < |records| - 1 {
      assert forall k :: 0 <= k < |init| ==> init[k] == records[k];
      LoadLastWins(init, j, a);
    }
  }

  /** An index of -1 addresses the last symbol, 255. */
  lemma NegativeIndexCountsFromTheEnd()
    ensures Load([[Field(Some(-1), Some(-1.0)), Field(None, Some(0.5))]]) == Success(Constant(AlphabetSize, 0.0)[255 := 0.5])
  {
    var records := [[Field(Some(-1), Some(-1.0)), Field(None, Some(0.5))]];
    assert records[..0] == [];
  }

  /** An index of 256 is out of bounds, whatever records follow it. */
  lemma IndexPastTheAlphabetFails(rest: seq<Record>)
    ensures Load([[Field(Some(256), Some(256.0)), Field(Some(0), Some(0.0))]] + rest) == Failure(SymbolOutOfRange(256))
  {
    var records := [[Field(Some(256), Some(256.0)), Field(Some(0), Some(0.0))]] + rest;
    LoadFirstError(records, 0);
  }

  /** Any record whose integer index lies outside [-256, 256) makes the whole read fail. */
  lemma IndexOutOfBoundsFails(records: seq<Record>, j: nat)
    requires j < |records| && |records[j]| == 2 && records[j][0].asInt.Some?
    requires records[j][0].asInt.value >= AlphabetSize || records[j][0].asInt.value < -(AlphabetSize as int)
    ensures Load(records).Failure?
  {
    LoadSucceedsIff(records);
  }

  /** Any record that does not have exactly two fields makes the whole read fail. */
  lemma WrongFieldCountFails(records: seq<Record>, j: nat)
    requires j < |records| && |records[j]| != 2
    ensures Load(records).Failure?
  {
    LoadSucceedsIff(records);
  }
}
