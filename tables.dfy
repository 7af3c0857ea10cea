/** The meter's name tables and the Python failures the core can raise. */
module Tables {

  datatype Option<T> = None | Some(item: T)

  /** The exceptions the core raises; none of them is caught, so each ends the process. */
  datatype Fault =
    | IndexError               // a list index past the end (a short reply, or range code 7)
    | ValueError(name: string) // `list.index(name)` found no such entry

  /** The outcome of an operation that may raise. Failure-compatible, for `:-`. */
  datatype Result<T> = Ok(value: T) | Err(fault: Fault) {
    predicate IsFailure() { Err? }
    function PropagateFailure<U>(): Result<U>
      requires Err?
    {
      Err(fault)
    }
    function Extract(): T
      requires Ok?
    {
      value
    }
  }

  /** Measurement ranges, indexed by the meter's 3-bit range code (codes 0..6; 7 has no entry). */
  const Ranges: seq<string> := ["30-80", "40-90", "50-100", "60-110", "70-120", "80-130", "30-130"]
  /** Response speeds, indexed by the speed bit. */
  const Speeds: seq<string> := ["fast", "slow"]
  /** Frequency weightings, indexed by the weighting bit. */
  const Weights: seq<string> := ["A", "C"]
  /** Max-hold modes, indexed by the max-hold bit. */
  const MaxModes: seq<string> := ["instant", "max"]

  /** Only the first four ranges can be selected over USB. */
  const SettableRanges: seq<string> := Ranges[0..4]

  predicate Distinct(table: seq<string>)
  {
    forall i, j :: 0 <= i < j < |table| ==> table[i] != table[j]
  }

  /** Python `table.index(name)`: the position of the first entry equal to `name`,
      or ValueError when there is none. */
  function IndexOf(table: seq<string>, name: string): (r: Result<nat>)
    ensures r.Ok? <==> name in table
    ensures r.Ok? ==> r.value < |table| && table[r.value] == name && name !in table[..r.value]
    ensures r.Err? ==> r.fault == ValueError(name)
  {
    if |table| == 0 then Err(ValueError(name))
    else if table[0] == name then Ok(0)
    else
      match IndexOf(table[1..], name)
      case Ok(k) => (assert table[1..][..k] == table[1..k + 1]; Ok(k + 1))
      case Err(f) => Err(f)
  }

  /** In a table without repeated names, `index` inverts subscripting. */
  lemma IndexOfDistinct(table: seq<string>, k: nat)
    requires Distinct(table) && k < |table|
    ensures IndexOf(table, table[k]) == Ok(k)
  {
    assert table[k] in table;
  }

  lemma TablesDistinct()
    ensures Distinct(Ranges) && Distinct(Speeds) && Distinct(Weights) && Distinct(MaxModes)
    ensures Distinct(SettableRanges) && SettableRanges == Ranges[..4]
  {
  }
}
