/**
 * Loading one row of the system matrix into the working vector `w` and
 * computing the row's norm (`setup_w`). Both storage layouts are modelled:
 * compressed rows (three buffers: row offsets, column indices, values) and a
 * vector of per-row maps.
 *
 * `setup_w` returns `sqrt(row_norm)`; this model returns `row_norm`, the sum of
 * squares, and the drop test compares squares instead (see IlutSpec.Threshold).
 */
module RowAccess {
  import opened SparseKeys

  /** A sparse row: column index to value, as a `std::map<SizeType, ScalarType>`. */
  type Row = map<nat, real>

  /** What `m[j]` reads: a `std::map` value-initialises a missing key to zero. */
  function Get(m: Row, j: nat): real {
    if j in m then m[j] else 0.0
  }

  /** The system matrix in one of the two layouts `setup_w` accepts. */
  datatype SystemMatrix =
    | Compressed(size1: nat, rowBuffer: array<nat>, colBuffer: array<nat>, elements: array<real>)
    | RowMaps(rows: seq<Row>)

  function Footprint(A: SystemMatrix): set<object> {
    if A.Compressed? then {A.rowBuffer, A.colBuffer, A.elements} else {}
  }

  /** The number of rows, `size1(A)`. */
  function Size1(A: SystemMatrix): nat {
    if A.Compressed? then A.size1 else |A.rows|
  }

  /** Row `row` has both offsets, and a non-empty span lies inside the index and value buffers. */
  predicate RowInBounds(rowBuffer: array<nat>, colBuffer: array<nat>, elements: array<real>, row: nat)
    reads rowBuffer, colBuffer, elements
  {
    && row + 1 < rowBuffer.Length
    && (rowBuffer[row] < rowBuffer[row + 1] ==>
          rowBuffer[row + 1] <= colBuffer.Length && rowBuffer[row + 1] <= elements.Length)
  }

  predicate WellFormed(A: SystemMatrix)
    reads Footprint(A)
  {
    A.Compressed? ==>
      forall r :: 0 <= r < A.size1 ==> RowInBounds(A.rowBuffer, A.colBuffer, A.elements, r)
  }

  /** The row after `w[cols[b]] = vals[b]` for every b in order: a later duplicate column wins. */
  function LoadEntries(w: Row, cols: seq<nat>, vals: seq<real>): Row
    requires |cols| == |vals|
    decreases |cols|
  {
    if cols == [] then w
    else LoadEntries(w, cols[..|cols| - 1], vals[..|vals| - 1])[cols[|cols| - 1] := vals[|vals| - 1]]
  }

  function Sq(x: real): (r: real)
    ensures r >= 0.0
  {
    x * x
  }

  /** Sum of squares accumulated in buffer order. */
  function SumSq(vals: seq<real>): (r: real)
    ensures r >= 0.0
    decreases |vals|
  {
    if vals == [] then 0.0
    else SumSq(vals[..|vals| - 1]) + Sq(vals[|vals| - 1])
  }

  /** Sum of squares of a map's values, accumulated in ascending key order. */
  function SumSqMap(m: Row): (r: real)
    ensures r >= 0.0
    decreases m.Keys
  {
    if m == map[] then 0.0
    else
      var k := MinKey(m.Keys);
      Sq(m[k]) + SumSqMap(m - {k})
  }

  /** What `setup_w` computes on compressed storage, starting from the vector `w`. */
  function CompressedRow(rowBuffer: array<nat>, colBuffer: array<nat>, elements: array<real>, row: nat, w: Row): (Row, real)
    requires RowInBounds(rowBuffer, colBuffer, elements, row)
    reads rowBuffer, colBuffer, elements
  {
    var b, e := rowBuffer[row], rowBuffer[row + 1];
    if b < e then (LoadEntries(w, colBuffer[b..e], elements[b..e]), SumSq(elements[b..e]))
    else (w, 0.0)
  }

  /** Row `row` of either layout, loaded into an empty working vector, with its squared norm. */
  function LoadRow(A: SystemMatrix, row: nat): (Row, real)
    requires WellFormed(A) && row < Size1(A)
    reads Footprint(A)
  {
    match A
    case Compressed(_, rowBuffer, colBuffer, elements) => CompressedRow(rowBuffer, colBuffer, elements, row, map[])
    case RowMaps(rows) => (rows[row], SumSqMap(rows[row]))
  }

  /** `setup_w` for compressed storage: assigns every stored entry of the row into `w` and accumulates its square. */
  method SetupWCompressed(rowBuffer: array<nat>, colBuffer: array<nat>, elements: array<real>, row: nat, w0: Row)
    returns (w: Row, normSq: real)
    requires RowInBounds(rowBuffer, colBuffer, elements, row)
    ensures (w, normSq) == CompressedRow(rowBuffer, colBuffer, elements, row, w0)
  {
    var b, e := rowBuffer[row], rowBuffer[row + 1];
    w, normSq := w0, 0.0;
    var idx := b;
    while idx < e
      invariant b <= idx && (b < e ==> idx <= e)
      invariant b < e ==> w == LoadEntries(w0, colBuffer[b..idx], elements[b..idx])
      invariant b < e ==> normSq == SumSq(elements[b..idx])
      invariant b >= e ==> w == w0 && normSq == 0.0
    {
      var entry := elements[idx];
      assert colBuffer[b..idx + 1][..idx - b] == colBuffer[b..idx];
      assert elements[b..idx + 1][..idx - b] == elements[b..idx];
      w := w[colBuffer[idx] := entry];
      normSq := normSq + Sq(entry);
      idx := idx + 1;
    }
  }

  /** `setup_w` for a vector of maps: copies the row and accumulates the squares of its values in key order. */
  method SetupWRowMaps(A: seq<Row>, row: nat) returns (w: Row, normSq: real)
    requires row < |A|
    ensures w == A[row]
    ensures normSq == SumSqMap(A[row])
  {
    w := A[row];
    normSq := 0.0;
    var rest := w;
    while rest != map[]
      invariant normSq + SumSqMap(rest) == SumSqMap(w)
      decreases rest.Keys
    {
      var k := LeastKey(rest.Keys);
      normSq := normSq + Sq(rest[k]);
      rest := rest - {k};
    }
  }

  /** The overload resolution of `setup_w`: the row is loaded into the empty working vector. */
  method SetupW(A: SystemMatrix, row: nat) returns (w: Row, normSq: real)
    requires WellFormed(A) && row < Size1(A)
    ensures (w, normSq) == LoadRow(A, row)
  {
    match A
    case Compressed(_, rowBuffer, colBuffer, elements) =>
      w, normSq := SetupWCompressed(rowBuffer, colBuffer, elements, row, map[]);
    case RowMaps(rows) =>
      w, normSq := SetupWRowMaps(rows, row);
  }

  /**
   * What loading entries does to each column: the keys are the old keys plus
   * the loaded columns, a loaded column holds the value of its last occurrence,
   * and every other column keeps its old value.
   */
  lemma LoadEntriesSpec(w: Row, cols: seq<nat>, vals: seq<real>)
    requires |cols| == |vals|
    ensures LoadEntries(w, cols, vals).Keys == w.Keys + (set c | c in cols)
    ensures forall b :: 0 <= b < |cols| && cols[b] !in cols[b + 1..] ==>
              LoadEntries(w, cols, vals)[cols[b]] == vals[b]
    ensures forall c :: c in w && c !in cols ==> LoadEntries(w, cols, vals)[c] == w[c]
  {
    LoadEntriesKeys(w, cols, vals);
    forall b | 0 <= b < |cols| && cols[b] !in cols[b + 1..]
      ensures LoadEntries(w, cols, vals)[cols[b]] == vals[b]
    {
      LoadEntriesLastWins(w, cols, vals, b);
    }
    forall c | c in w && c !in cols ensures LoadEntries(w, cols, vals)[c] == w[c] {
      LoadEntriesKeeps(w, cols, vals, c);
    }
  }

  lemma {:induction false} LoadEntriesKeys(w: Row, cols: seq<nat>, vals: seq<real>)
    requires |cols| == |vals|
    ensures LoadEntries(w, cols, vals).Keys == w.Keys + (set c | c in cols)
    decreases |cols|
  {
    if cols != [] {
      var n := |cols| - 1;
      LoadEntriesKeys(w, cols[..n], vals[..n]);
      assert cols == cols[..n] + [cols[n]];
      assert (set c | c in cols) == (set c | c in cols[..n]) + {cols[n]};
    }
  }

  lemma {:induction false} LoadEntriesLastWins(w: Row, cols: seq<nat>, vals: seq<real>, b: nat)
    requires |cols| == |vals| && b < |cols| && cols[b] !in cols[b + 1..]
    ensures cols[b] in LoadEntries(w, cols, vals) && LoadEntries(w, cols, vals)[cols[b]] == vals[b]
    decreases |cols|
  {
    var n := |cols| - 1;
    if b < n {
      assert cols[n] in cols[b + 1..];
      assert cols[..n][b + 1..] == cols[b + 1..n];
      LoadEntriesLastWins(w, cols[..n], vals[..n], b);
    }
  }

  lemma {:induction false} LoadEntriesKeeps(w: Row, cols: seq<nat>, vals: seq<real>, c: nat)
    requires |cols| == |vals| && c in w && c !in cols
    ensures c in LoadEntries(w, cols, vals) && LoadEntries(w, cols, vals)[c] == w[c]
    decreases |cols|
  {
    if cols != [] {
      var n := |cols| - 1;
      assert c != cols[n];
      assert c !in cols[..n];
      LoadEntriesKeeps(w, cols[..n], vals[..n], c);
    }
  }

  /** Removing any one key from the sum of squares removes exactly that key's square. */
  lemma {:induction false} SumSqMapRemove(m: Row, k: nat)
    requires k in m
    ensures SumSqMap(m) == Sq(m[k]) + SumSqMap(m - {k})
    decreases m.Keys
  {
    var k0 := MinKey(m.Keys);
    if k != k0 {
      var r := m - {k0};
      SumSqMapRemove(r, k);
      assert r - {k} == (m - {k}) - {k0};
      assert k0 in (m - {k}).Keys;
      assert MinKey((m - {k}).Keys) == k0;
    }
  }

  /** Inserting a fresh key adds exactly its square. */
  lemma SumSqMapInsert(m: Row, c: nat, v: real)
    requires c !in m
    ensures SumSqMap(m[c := v]) == Sq(v) + SumSqMap(m)
  {
    SumSqMapRemove(m[c := v], c);
    assert m[c := v] - {c} == m;
  }

  /** Each column listed once: every loaded column holds its own value. */
  lemma LoadEntriesDistinct(cols: seq<nat>, vals: seq<real>)
    requires |cols| == |vals|
    requires forall a, b :: 0 <= a < b < |cols| ==> cols[a] != cols[b]
    ensures forall b :: 0 <= b < |cols| ==> cols[b] in LoadEntries(map[], cols, vals)
    ensures forall b :: 0 <= b < |cols| ==> LoadEntries(map[], cols, vals)[cols[b]] == vals[b]
  {
    LoadEntriesSpec(map[], cols, vals);
  }

  /**
   * The two overloads compute the same norm: when a compressed row lists each
   * column once, the sum of squares over the loaded map, as the row-map
   * overload takes it, equals the sum of squares over the buffer, as the
   * compressed overload takes it.
   */
  lemma {:induction false} SetupWOverloadsAgree(cols: seq<nat>, vals: seq<real>)
    requires |cols| == |vals|
    requires forall a, b :: 0 <= a < b < |cols| ==> cols[a] != cols[b]
    ensures SumSqMap(LoadEntries(map[], cols, vals)) == SumSq(vals)
    decreases |cols|
  {
    if cols != [] {
      var n := |cols| - 1;
      var prev := LoadEntries(map[], cols[..n], vals[..n]);
      SetupWOverloadsAgree(cols[..n], vals[..n]);
      LoadEntriesSpec(map[], cols[..n], vals[..n]);
      assert cols[n] !in cols[..n];
      SumSqMapInsert(prev, cols[n], vals[n]);
    }
  }
}
