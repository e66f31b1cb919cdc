/** The picture of a pandas DataFrame shared by every fault rule: a time
    index in integer seconds and named columns, each with its dtype. */
module Tables {

  datatype Option<+T> = None | Some(value: T)

  /** What a rule's `apply` can raise. */
  datatype Fault =
    | TypeError(message: string)        // a failed column check, carrying its HelperUtils message
    | KeyError(key: string)             // df[key] on a table without that column
    | AttributeError(attribute: string) // self.<attribute> that __init__ never assigned
    | InvalidComparison(text: string)   // a numeric column ordered against a str
    | IntCastingNaN                     // astype(int) met a missing value

  datatype Result<+T> = Ok(value: T) | Err(fault: Fault)

  /** A column with its dtype: int64, float64 (a NaN is None) or bool. */
  datatype Column =
    | IntCol(ints: seq<int>)
    | FloatCol(reals: seq<Option<real>>)
    | BoolCol(bools: seq<bool>)
  {
    function Length(): nat {
      match this
      case IntCol(xs) => |xs|
      case FloatCol(xs) => |xs|
      case BoolCol(xs) => |xs|
    }

    /** Row i as a number, the way pandas arithmetic sees it (True is 1). */
    function Cell(i: nat): Option<real>
      requires i < Length()
    {
      match this
      case IntCol(xs) => Some(xs[i] as real)
      case FloatCol(xs) => xs[i]
      case BoolCol(xs) => Some(if xs[i] then 1.0 else 0.0)
    }
  }

  /** The value of a table at one moment. */
  datatype Frame = Frame(index: seq<int>, columns: map<string, Column>)
  {
    ghost predicate Valid() {
      forall name :: name in columns ==> columns[name].Length() == |index|
    }

    /** df[name] = c */
    function Put(name: string, c: Column): (g: Frame)
      requires Valid() && c.Length() == |index|
      ensures g.Valid()
    {
      Frame(index, columns[name := c])
    }

    /** del df[name] for every name given */
    function Drop(names: set<string>): (g: Frame)
      requires Valid()
      ensures g.Valid()
    {
      Frame(index, columns - names)
    }
  }

  /** The table as the caller sees it after `apply` returns or raises. */
  datatype Applied = Applied(frame: Frame, raised: Option<Fault>)

  predicate Distinct(names: seq<string>) {
    forall j, k :: 0 <= j < k < |names| ==> names[j] != names[k]
  }

  /** A DataFrame object, changed in place by the rules. */
  class DataFrame {
    var index: seq<int>
    var columns: map<string, Column>

    ghost predicate Valid()
      reads this
    {
      Snapshot().Valid()
    }

    function Snapshot(): Frame
      reads this
    {
      Frame(index, columns)
    }

    constructor (f: Frame)
      requires f.Valid()
      ensures Valid() && Snapshot() == f
    {
      index := f.index;
      columns := f.columns;
    }

    /** df[name] = c */
    method SetItem(name: string, c: Column)
      requires Valid() && c.Length() == |index|
      modifies this
      ensures Valid() && Snapshot() == old(Snapshot()).Put(name, c)
    {
      columns := columns[name := c];
    }

    /** del df[names[0]]; del df[names[1]]; ... */
    method DelItems(names: seq<string>)
      requires Valid() && Distinct(names)
      requires forall n :: n in names ==> n in columns
      modifies this
      ensures Valid() && Snapshot() == old(Snapshot()).Drop(set n | n in names)
    {
      ghost var start := columns;
      var k := 0;
      while k < |names|
        invariant 0 <= k <= |names|
        invariant index == old(index)
        invariant columns == start - (set n | n in names[..k])
        invariant Valid()
      {
        assert names[k] in columns by {
          assert forall j :: 0 <= j < k ==> names[j] != names[k];
        }
        columns := columns - {names[k]};
        assert names[..k + 1] == names[..k] + [names[k]];
        k := k + 1;
      }
      assert names[..k] == names;
    }
  }
}
