/**
 * The data helpers of the Grist client: the column-to-row transpose, the
 * recursive array trimmer used before showing sample data to the model,
 * the set comparison behind the row selection, the option-backed atom and
 * the row-selection setter.
 */
module Grist {
  import opened Wrappers

  /** A JavaScript value as far as these helpers look at it (numbers are integers here). */
  datatype Value =
    | Undefined
    | Null
    | Bool(b: bool)
    | Num(n: int)
    | Str(s: string)
    | Arr(items: seq<Value>)
    | Obj(entries: seq<(string, Value)>)

  function Min(a: nat, b: nat): nat {
    if a <= b then a else b
  }

  // ---------------------------------------------------------------------------
  // gristColumnFormatToRows

  /**
   * Grist's column format: `keys` is `Object.keys(columnFormat)`, in order, and
   * `columns` maps each key to that column's values.
   */
  datatype ColumnFormat = ColumnFormat(keys: seq<string>, columns: map<string, seq<Value>>)

  /** The keys are the distinct keys of the record. */
  predicate WellFormed(f: ColumnFormat) {
    (forall i, j :: 0 <= i < j < |f.keys| ==> f.keys[i] != f.keys[j])
    && f.columns.Keys == set k | k in f.keys
  }

  /** `columnFormat[column][i]`: reading past the end of a column gives `undefined`. */
  function ValueAt(column: seq<Value>, i: nat): Value {
    if i < |column| then column[i] else Undefined
  }

  /**
   * Row `i` maps every column key to that column's `i`-th value; there are
   * as many rows as the FIRST column has values. A record without columns
   * makes the source throw, so it is excluded.
   */
  method ColumnFormatToRows(f: ColumnFormat) returns (rows: seq<map<string, Value>>)
    requires WellFormed(f) && |f.keys| > 0
    ensures |rows| == |f.columns[f.keys[0]]|
    ensures forall i :: 0 <= i < |rows| ==> rows[i].Keys == f.columns.Keys
    ensures forall i, c :: 0 <= i < |rows| && c in f.columns ==> rows[i][c] == ValueAt(f.columns[c], i)
  {
    var rowCount := |f.columns[f.keys[0]]|;
    rows := [];
    var i := 0;
    while i < rowCount
      invariant 0 <= i <= rowCount && |rows| == i
      invariant forall r :: 0 <= r < i ==> rows[r].Keys == f.columns.Keys
      invariant forall r, c :: 0 <= r < i && c in f.columns ==> rows[r][c] == ValueAt(f.columns[c], r)
    {
      var row := RowAt(f, i);
      rows := rows + [row];
      i := i + 1;
    }
  }

  /** Row `i`: every column key, in key order, mapped to that column's `i`-th value. */
  method RowAt(f: ColumnFormat, i: nat) returns (row: map<string, Value>)
    requires WellFormed(f)
    ensures row.Keys == f.columns.Keys
    ensures forall c :: c in f.columns ==> row[c] == ValueAt(f.columns[c], i)
  {
    var columns := f.keys;
    row := map[];
    var j := 0;
    while j < |columns|
      invariant 0 <= j <= |columns|
      invariant row.Keys == set k | k in columns[..j]
      invariant forall c :: c in row ==> row[c] == ValueAt(f.columns[c], i)
    {
      var column := columns[j];
      assert columns[..j + 1] == columns[..j] + [column];
      row := row[column := ValueAt(f.columns[column], i)];
      j := j + 1;
    }
    assert columns[..j] == columns;
  }

  // ---------------------------------------------------------------------------
  // recursiveTrimToThreeArrayMembers

  /** Keeps the first three members of every array, at every depth; objects keep all their keys. */
  function TrimToThree(v: Value): Value
    decreases v
  {
    match v
    case Arr(items) =>
      Arr(seq(Min(3, |items|), i requires 0 <= i < Min(3, |items|) => TrimToThree(items[i])))
    case Obj(entries) =>
      Obj(seq(|entries|, i requires 0 <= i < |entries| => (entries[i].0, TrimToThree(entries[i].1))))
    case _ => v
  }

  /** No array anywhere inside `v` has more than three members. */
  predicate AtMostThree(v: Value)
    decreases v
  {
    match v
    case Arr(items) => |items| <= 3 && forall i :: 0 <= i < |items| ==> AtMostThree(items[i])
    case Obj(entries) => forall i :: 0 <= i < |entries| ==> AtMostThree(entries[i].1)
    case _ => true
  }

  /** The key sequence of an object's entries. */
  function Keys(entries: seq<(string, Value)>): seq<string> {
    seq(|entries|, i requires 0 <= i < |entries| => entries[i].0)
  }

  /** After trimming, no array anywhere has more than three members. */
  lemma {:induction false} TrimBounds(v: Value)
    ensures AtMostThree(TrimToThree(v))
    decreases v
  {
    match v
    case Arr(items) =>
      forall i | 0 <= i < Min(3, |items|)
        ensures AtMostThree(TrimToThree(items[i]))
      {
        TrimBounds(items[i]);
      }
    case Obj(entries) =>
      forall i | 0 <= i < |entries|
        ensures AtMostThree(TrimToThree(entries[i].1))
      {
        TrimBounds(entries[i].1);
      }
    case _ =>
  }

  /** A value whose arrays already have at most three members is left as it is. */
  lemma {:induction false} TrimKeepsSmall(v: Value)
    requires AtMostThree(v)
    ensures TrimToThree(v) == v
    decreases v
  {
    match v
    case Arr(items) =>
      forall i | 0 <= i < |items|
        ensures TrimToThree(items[i]) == items[i]
      {
        TrimKeepsSmall(items[i]);
      }
      assert TrimToThree(v).items == items;
    case Obj(entries) =>
      forall i | 0 <= i < |entries|
        ensures TrimToThree(entries[i].1) == entries[i].1
      {
        TrimKeepsSmall(entries[i].1);
      }
      assert TrimToThree(v).entries == entries;
    case _ =>
  }

  /** Trimming twice is trimming once. */
  lemma TrimIdempotent(v: Value)
    ensures TrimToThree(TrimToThree(v)) == TrimToThree(v)
  {
    TrimBounds(v);
    TrimKeepsSmall(TrimToThree(v));
  }

  /**
   * Trimming keeps the kind of every value: primitives and null unchanged,
   * an array becomes the array of its first min(3, n) members, each trimmed,
   * and an object keeps exactly its keys, in order, each value trimmed.
   */
  lemma TrimShape(v: Value)
    ensures !v.Arr? && !v.Obj? ==> TrimToThree(v) == v
    ensures v.Arr? ==> TrimToThree(v).Arr? && |TrimToThree(v).items| == Min(3, |v.items|)
                       && forall i :: 0 <= i < |TrimToThree(v).items| ==> TrimToThree(v).items[i] == TrimToThree(v.items[i])
    ensures v.Obj? ==> TrimToThree(v).Obj? && Keys(TrimToThree(v).entries) == Keys(v.entries)
                       && forall i :: 0 <= i < |v.entries| ==> TrimToThree(v).entries[i].1 == TrimToThree(v.entries[i].1)
  {
  }

  // ---------------------------------------------------------------------------
  // areSetsEqual

  /** The distinct elements of an array: `new Set(arr)`. */
  function Elements(a: seq<int>): set<int> {
    set x | x in a
  }

  /** What `areSetsEqual` decides: equal lengths and the same distinct elements. */
  predicate SameElements(a: seq<int>, b: seq<int>) {
    |a| == |b| && Elements(a) == Elements(b)
  }

  /** `new Set(a)`: the distinct elements of `a` in order of first occurrence (a JavaScript Set keeps insertion order). */
  function Dedup(a: seq<int>): seq<int>
    decreases |a|
  {
    if a == [] then []
    else
      var d := Dedup(a[..|a| - 1]);
      if a[|a| - 1] in d then d else d + [a[|a| - 1]]
  }

  predicate Distinct(d: seq<int>) {
    forall i, j :: 0 <= i < j < |d| ==> d[i] != d[j]
  }

  /** The set holds each element of the array exactly once. */
  lemma {:induction false} DedupSpec(a: seq<int>)
    ensures Distinct(Dedup(a))
    ensures Elements(Dedup(a)) == Elements(a)
    decreases |a|
  {
    if a != [] {
      var p := a[..|a| - 1];
      DedupSpec(p);
      var y := a[|a| - 1];
      assert a == p + [y];
      assert Elements(a) == Elements(p) + {y};
      if y !in Dedup(p) {
        assert Elements(Dedup(p) + [y]) == Elements(Dedup(p)) + {y};
      }
    }
  }

  /** A sequence without repetitions has as many distinct elements as members. */
  lemma {:induction false} DistinctCardinality(d: seq<int>)
    requires Distinct(d)
    ensures |Elements(d)| == |d|
    decreases |d|
  {
    if d != [] {
      var p := d[..|d| - 1];
      DistinctCardinality(p);
      assert d == p + [d[|d| - 1]];
      assert Elements(d) == Elements(p) + {d[|d| - 1]};
    }
  }

  /** A subset as large as its superset is the superset. */
  lemma SubsetSameSizeIsEqual(s: set<int>, t: set<int>)
    requires s <= t && |s| == |t|
    ensures s == t
  {
    assert s * t == s;
    assert |t - s| == |t| - |t * s|;
    assert t - s == {};
    assert t == s + (t - s);
  }

  /**
   * `areSetsEqual`: false at once when the lengths differ, false when the
   * numbers of distinct elements differ, false at the first element of the
   * first set missing from the second, true otherwise.
   */
  method AreSetsEqual(arr1: seq<int>, arr2: seq<int>) returns (r: bool)
    ensures |arr1| != |arr2| ==> !r
    ensures r <==> SameElements(arr1, arr2)
  {
    if |arr1| != |arr2| {
      return false;
    }
    var set1 := Dedup(arr1);
    var set2 := Dedup(arr2);
    DedupSpec(arr1);
    DedupSpec(arr2);
    DistinctCardinality(set1);
    DistinctCardinality(set2);
    if |set1| != |set2| {
      return false;
    }
    for i := 0 to |set1|
      invariant forall k :: 0 <= k < i ==> set1[k] in set2
    {
      var item := set1[i];
      if item !in set2 {
        assert item in Elements(set1);
        return false;
      }
    }
    assert Elements(set1) <= Elements(set2);
    SubsetSameSizeIsEqual(Elements(set1), Elements(set2));
    return true;
  }

  /** The comparison is reflexive and symmetric. */
  lemma SameElementsReflexiveSymmetric(a: seq<int>, b: seq<int>)
    ensures SameElements(a, a)
    ensures SameElements(a, b) <==> SameElements(b, a)
  {
  }

  /** It ignores multiplicity: `[1, 1, 2]` and `[1, 2, 2]` compare equal though they are not permutations. */
  lemma SameElementsIgnoresMultiplicity()
    ensures SameElements([1, 1, 2], [1, 2, 2])
    ensures multiset([1, 1, 2]) != multiset([1, 2, 2])
  {
    assert Elements([1, 1, 2]) == {1, 2};
    assert Elements([1, 2, 2]) == {1, 2};
    assert multiset([1, 1, 2])[1] == 2;
  }

  // ---------------------------------------------------------------------------
  // atomWithGristBacking

  /**
   * An atom backed by a Grist widget option. The options record the host
   * sends is a parameter of every read: a missing key or a `None` stands for
   * an option that is `undefined` or `null`. The call that stores the option
   * in Grist is recorded in `sentOptions`.
   */
  class GristBackedAtom<T> {
    const key: string
    const defaultValue: T
    var updatedInMountSession: bool
    var value: T
    var sentOptions: seq<(string, T)>

    constructor (key: string, defaultValue: T)
      ensures this.key == key && this.defaultValue == defaultValue
      ensures !updatedInMountSession && value == defaultValue && sentOptions == []
    {
      this.key := key;
      this.defaultValue := defaultValue;
      updatedInMountSession := false;
      value := defaultValue;
      sentOptions := [];
    }

    /**
     * Until the first write, the Grist option for the key, or the default when
     * it is null or undefined; after a write, the value written last.
     */
    function Read(options: map<string, Option<T>>): (r: T)
      reads this
      ensures updatedInMountSession ==> r == value
      ensures !updatedInMountSession && key in options && options[key].Some? ==> r == options[key].value
      ensures !updatedInMountSession && (key !in options || options[key].None?) ==> r == defaultValue
    {
      if !updatedInMountSession then
        if key in options && options[key].Some? then options[key].value else defaultValue
      else value
    }

    /** A write stores the value in Grist and makes every later read return it, whatever the options say. */
    method Write(update: T)
      modifies this
      ensures updatedInMountSession && value == update
      ensures sentOptions == old(sentOptions) + [(key, update)]
      ensures forall options :: Read(options) == update
    {
      sentOptions := sentOptions + [(key, update)];
      updatedInMountSession := true;
      value := update;
    }
  }

  // ---------------------------------------------------------------------------
  // useSelectedRows

  /** The selection state of `useSelectedRows`; `gristCalls` records each `grist.setSelectedRows` call. */
  class SelectedRows {
    var previouslySelectedRows: seq<int>
    var gristCalls: seq<seq<int>>

    constructor ()
      ensures previouslySelectedRows == [] && gristCalls == []
    {
      previouslySelectedRows := [];
      gristCalls := [];
    }

    /**
     * Stores the rows and tells Grist only when they differ, as sets, from the
     * rows stored before; either way the stored rows then compare equal to `rows`.
     */
    method SetSelectedRows(rows: seq<int>)
      modifies this
      ensures SameElements(old(previouslySelectedRows), rows) ==>
                previouslySelectedRows == old(previouslySelectedRows) && gristCalls == old(gristCalls)
      ensures !SameElements(old(previouslySelectedRows), rows) ==>
                previouslySelectedRows == rows && gristCalls == old(gristCalls) + [rows]
      ensures SameElements(previouslySelectedRows, rows)
    {
      var same := AreSetsEqual(previouslySelectedRows, rows);
      if !same {
        previouslySelectedRows := rows;
        gristCalls := gristCalls + [rows];
      }
    }
  }
}
