/** Building a JavaScript object from parallel name and value arrays:
    `names.forEach((name, i) => row[name] = values[i])`. */
module Records {
  import opened Wrappers

  /** `names[j]` does not occur again after position j. */
  predicate LastOccurrence(names: seq<string>, j: nat)
    requires j < |names|
  {
    forall j' :: j < j' < |names| ==> names[j'] != names[j]
  }

  /** The object built by the loop, one assignment per position. */
  function Zip<V>(names: seq<string>, values: seq<V>): map<string, Option<V>>
    decreases |names|
  {
    if |names| == 0 then map[]
    else
      var n := |names| - 1;
      Zip(names[..n], values)[names[n] := At(values, n)]
  }

  /** `row[name]`: undefined for a name that was never assigned. */
  function Get<V>(row: map<string, Option<V>>, name: string): Option<V> {
    if name in row then row[name] else None
  }

  /** The object has exactly one property per name. */
  lemma {:induction false} ZipKeys<V>(names: seq<string>, values: seq<V>)
    ensures Zip(names, values).Keys == set k | k in names
    decreases |names|
  {
    if |names| > 0 {
      var n := |names| - 1;
      var prefix := names[..n];
      ZipKeys(prefix, values);
      assert names == prefix + [names[n]];
      assert (set k | k in names) == (set k | k in prefix) + {names[n]};
    }
  }

  /** Each property holds the value at the name's last position (later
      assignments overwrite earlier ones), or undefined when the values run
      out before that position. */
  lemma {:induction false} ZipLastWins<V>(names: seq<string>, values: seq<V>, j: nat)
    requires j < |names| && LastOccurrence(names, j)
    ensures Get(Zip(names, values), names[j]) == At(values, j)
    decreases |names|
  {
    var n := |names| - 1;
    if j < n {
      var prefix := names[..n];
      assert names[n] != names[j];
      assert prefix[j] == names[j];
      assert LastOccurrence(prefix, j) by {
        forall j' | j < j' < |prefix| ensures prefix[j'] != prefix[j] {
          assert prefix[j'] == names[j'];
        }
      }
      ZipLastWins(prefix, values, j);
    }
  }

  /** The position of the last occurrence of `name`, if any. */
  function LastIndexOf(names: seq<string>, name: string): (r: Option<nat>)
    ensures r.Some? <==> name in names
    ensures r.Some? ==> r.value < |names| && names[r.value] == name && LastOccurrence(names, r.value)
    decreases |names|
  {
    if |names| == 0 then None
    else if names[|names| - 1] == name then Some(|names| - 1)
    else
      var r := LastIndexOf(names[..|names| - 1], name);
      assert name in names[..|names| - 1] <==> name in names by {
        assert names == names[..|names| - 1] + [names[|names| - 1]];
      }
      r
  }

  /** The value of one column: the cell at the column name's last position,
      undefined when the name is absent or the cells run out first. */
  function Column<V>(names: seq<string>, values: seq<V>, name: string): Option<V> {
    match LastIndexOf(names, name)
    case None => None
    case Some(j) => At(values, j)
  }

  /** Reading a property of the zipped object is reading its column. */
  lemma {:induction false} ZipGetIsColumn<V>(names: seq<string>, values: seq<V>, name: string)
    ensures Get(Zip(names, values), name) == Column(names, values, name)
  {
    ZipKeys(names, values);
    match LastIndexOf(names, name)
    case None =>
    case Some(j) => ZipLastWins(names, values, j);
  }

  /** A name that is not among `names` reads back as undefined. */
  lemma {:induction false} ZipMissing<V>(names: seq<string>, values: seq<V>, name: string)
    requires name !in names
    ensures Get(Zip(names, values), name) == None
  {
    ZipKeys(names, values);
  }
}
