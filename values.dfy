/** Rows, dynamically typed values, errors, and the ordering of key tuples.

    A row is an immutable map from field name to a tagged value, so every
    `deepcopy` of the original becomes plain value semantics.  Key tuples are
    sequences of values, compared lexicographically as Python compares tuples.
 */
module Values {

  datatype Option<+T> = None | Some(value: T)

  /** The ways a run aborts.  In the original each of these is a raised exception. */
  datatype Error =
    | MissingField(column: string)    // KeyError on a row
    | TypeMismatch(column: string)    // TypeError / ValueError on a field's value
    | MissingInput(name: string)      // KeyError on the run's named inputs
    | EmptySeparator                  // ValueError from `str.split('')`
    | EmptyGraph                      // `run` on a builder without nodes

  datatype Result<+T> = Ok(value: T) | Err(error: Error) {
    predicate IsFailure() { Err? }
    function PropagateFailure<U>(): Result<U> requires Err? { Err(error) }
    function Extract(): T requires Ok? { value }
  }

  /** Python `None`, `int`, `float` (as an exact real), `str`, and a list of floats. */
  datatype Value = NoneV | IntV(i: int) | RealV(r: real) | StrV(s: string) | ListV(l: seq<real>)

  type Row = map<string, Value>
  type Key = seq<Value>

  /** Python truthiness: zero, the empty string, the empty list and None are false. */
  predicate Truthy(v: Value) {
    match v
    case NoneV => false
    case IntV(i) => i != 0
    case RealV(r) => r != 0.0
    case StrV(s) => s != []
    case ListV(l) => l != []
  }

  predicate IsNumeric(v: Value) { v.IntV? || v.RealV? }

  function Num(v: Value): real
    requires IsNumeric(v)
  {
    if v.IntV? then v.i as real else v.r
  }

  /** Python `a + b` on the supported kinds: numeric addition (int + int stays
      an int), string and list concatenation; anything else is a TypeError. */
  function Add(a: Value, b: Value, column: string): (r: Result<Value>)
    ensures r.Ok? <==> (IsNumeric(a) && IsNumeric(b)) || (a.StrV? && b.StrV?) || (a.ListV? && b.ListV?)
    ensures r.Ok? && IsNumeric(a) && IsNumeric(b) ==> IsNumeric(r.value) && Num(r.value) == Num(a) + Num(b)
    ensures r.Ok? && a.IntV? && b.IntV? ==> r.value == IntV(a.i + b.i)
  {
    if a.IntV? && b.IntV? then Ok(IntV(a.i + b.i))
    else if IsNumeric(a) && IsNumeric(b) then Ok(RealV(Num(a) + Num(b)))
    else if a.StrV? && b.StrV? then Ok(StrV(a.s + b.s))
    else if a.ListV? && b.ListV? then Ok(ListV(a.l + b.l))
    else Err(TypeMismatch(column))
  }

  /** Python `a * b` on numbers (int * int stays an int). */
  function Mul(a: Value, b: Value, column: string): (r: Result<Value>)
    ensures r.Ok? <==> IsNumeric(a) && IsNumeric(b)
    ensures r.Ok? ==> IsNumeric(r.value) && Num(r.value) == Num(a) * Num(b)
  {
    if a.IntV? && b.IntV? then Ok(IntV(a.i * b.i))
    else if IsNumeric(a) && IsNumeric(b) then Ok(RealV(Num(a) * Num(b)))
    else Err(TypeMismatch(column))
  }

  // ---------------------------------------------------------------------
  // Strict total orders and their lexicographic extension
  // ---------------------------------------------------------------------

  ghost predicate StrictTotal<T(!new)>(lt: (T, T) -> bool) {
    (forall x :: !lt(x, x)) &&
    (forall x, y, z :: lt(x, y) && lt(y, z) ==> lt(x, z)) &&
    (forall x, y :: x != y ==> lt(x, y) || lt(y, x))
  }

  predicate CharLt(a: char, b: char) { a < b }
  predicate RealLt(a: real, b: real) { a < b }

  /** Python sequence comparison: the first position where the two differ
      decides; when one is a prefix of the other, the shorter is smaller. */
  predicate LexLt<T(==)>(a: seq<T>, b: seq<T>, lt: (T, T) -> bool) {
    if a == [] then b != []
    else if b == [] then false
    else if a[0] == b[0] then LexLt(a[1..], b[1..], lt)
    else lt(a[0], b[0])
  }

  lemma {:induction false} LexIrreflexive<T>(a: seq<T>, lt: (T, T) -> bool)
    ensures !LexLt(a, a, lt)
  {
    if a != [] { LexIrreflexive(a[1..], lt); }
  }

  lemma {:induction false} LexTransitive<T(!new)>(a: seq<T>, b: seq<T>, c: seq<T>, lt: (T, T) -> bool)
    requires StrictTotal(lt)
    requires LexLt(a, b, lt) && LexLt(b, c, lt)
    ensures LexLt(a, c, lt)
  {
    if a != [] && b != [] && c != [] {
      if a[0] == b[0] && b[0] == c[0] {
        LexTransitive(a[1..], b[1..], c[1..], lt);
      } else if a[0] == b[0] {
        assert lt(b[0], c[0]);
      } else if b[0] == c[0] {
        assert lt(a[0], b[0]);
      } else {
        assert lt(a[0], b[0]) && lt(b[0], c[0]);
      }
    }
  }

  lemma {:induction false} LexConnected<T(!new)>(a: seq<T>, b: seq<T>, lt: (T, T) -> bool)
    requires StrictTotal(lt)
    ensures a == b || LexLt(a, b, lt) || LexLt(b, a, lt)
  {
    if a != [] && b != [] && a[0] == b[0] {
      LexConnected(a[1..], b[1..], lt);
      if a[1..] == b[1..] {
        assert a == [a[0]] + a[1..] && b == [b[0]] + b[1..];
      }
    }
  }

  lemma CharLtStrictTotal()
    ensures StrictTotal(CharLt)
  {
  }

  lemma RealLtStrictTotal()
    ensures StrictTotal(RealLt)
  {
  }

  /** 0 for None, 1 for numbers, 2 for strings, 3 for lists. */
  function Rank(v: Value): nat {
    match v
    case NoneV => 0
    case IntV(_) => 1
    case RealV(_) => 1
    case StrV(_) => 2
    case ListV(_) => 3
  }

  /** The order on single values.  Within a kind it is Python's order; an
      int and a float compare by value, an int sorting first on a tie; other
      mixed kinds (a TypeError in Python) compare by `Rank`. */
  predicate ValueLt(a: Value, b: Value) {
    if Rank(a) != Rank(b) then Rank(a) < Rank(b)
    else match a
      case NoneV => false
      case IntV(_) => Num(a) < Num(b) || (Num(a) == Num(b) && b.RealV?)
      case RealV(_) => Num(a) < Num(b)
      case StrV(s) => LexLt(s, b.s, CharLt)
      case ListV(l) => LexLt(l, b.l, RealLt)
  }

  lemma ValueLtStrictTotal()
    ensures StrictTotal(ValueLt)
  {
    CharLtStrictTotal();
    RealLtStrictTotal();
    forall x: Value ensures !ValueLt(x, x) {
      if x.StrV? { LexIrreflexive(x.s, CharLt); }
      if x.ListV? { LexIrreflexive(x.l, RealLt); }
    }
    forall x: Value, y: Value, z: Value | ValueLt(x, y) && ValueLt(y, z) ensures ValueLt(x, z) {
      if x.StrV? && y.StrV? && z.StrV? { LexTransitive(x.s, y.s, z.s, CharLt); }
      if x.ListV? && y.ListV? && z.ListV? { LexTransitive(x.l, y.l, z.l, RealLt); }
    }
    forall x: Value, y: Value | x != y ensures ValueLt(x, y) || ValueLt(y, x) {
      if x.StrV? && y.StrV? { LexConnected(x.s, y.s, CharLt); }
      if x.ListV? && y.ListV? { LexConnected(x.l, y.l, RealLt); }
    }
  }

  /** Python tuple comparison of key tuples. */
  predicate KeyLt(a: Key, b: Key) { LexLt(a, b, ValueLt) }

  lemma KeyLtStrictTotal()
    ensures StrictTotal(KeyLt)
  {
    ValueLtStrictTotal();
    forall x: Key ensures !KeyLt(x, x) { LexIrreflexive(x, ValueLt); }
    forall x: Key, y: Key, z: Key | KeyLt(x, y) && KeyLt(y, z) ensures KeyLt(x, z) {
      LexTransitive(x, y, z, ValueLt);
    }
    forall x: Key, y: Key | x != y ensures KeyLt(x, y) || KeyLt(y, x) {
      LexConnected(x, y, ValueLt);
    }
  }

  /** `a <= b` and `b != a` give `a < b`. */
  lemma KeyLeNe(a: Key, b: Key)
    requires !KeyLt(b, a) && a != b
    ensures KeyLt(a, b)
  {
    KeyLtStrictTotal();
  }

  /** `a <= b < c` gives `a < c`. */
  lemma KeyLeLt(a: Key, b: Key, c: Key)
    requires !KeyLt(b, a) && KeyLt(b, c)
    ensures KeyLt(a, c)
  {
    KeyLtStrictTotal();
    if a != b { assert KeyLt(a, b); }
  }

  /** `a < b` rules out `b < a` and `a == b`. */
  lemma KeyLtAsymmetric(a: Key, b: Key)
    requires KeyLt(a, b)
    ensures !KeyLt(b, a) && a != b
  {
    KeyLtStrictTotal();
  }

  // ---------------------------------------------------------------------
  // Key extraction: `tuple(x[k] for k in keys)`
  // ---------------------------------------------------------------------

  predicate HasColumns(r: Row, cols: seq<string>) {
    forall c :: c in cols ==> c in r
  }

  predicate AllHaveColumns(rows: seq<Row>, cols: seq<string>) {
    forall r :: r in rows ==> HasColumns(r, cols)
  }

  /** The key tuple of a row; a missing column reads as None, which never
      happens where the result is used (every caller checks the columns first). */
  function KeyOf(r: Row, keys: seq<string>): (k: Key)
    ensures |k| == |keys|
    ensures forall i :: 0 <= i < |keys| && keys[i] in r ==> k[i] == r[keys[i]]
  {
    seq(|keys|, i requires 0 <= i < |keys| => if keys[i] in r then r[keys[i]] else NoneV)
  }

  /** The first of `cols` that `r` lacks, as Python's generator meets it. */
  function FirstMissingColumn(r: Row, cols: seq<string>): (c: string)
    requires !HasColumns(r, cols)
    ensures c in cols && c !in r
    ensures exists j :: 0 <= j < |cols| && cols[j] == c && forall i :: 0 <= i < j ==> cols[i] in r
  {
    if cols[0] !in r then cols[0]
    else
      var c := FirstMissingColumn(r, cols[1..]);
      var j :| 0 <= j < |cols[1..]| && cols[1..][j] == c && forall i :: 0 <= i < j ==> cols[1..][i] in r;
      assert cols[j + 1] == c && forall i :: 0 <= i < j + 1 ==> cols[i] in r;
      c
  }

  /** The KeyError raised by the first row, in order, that lacks a column. */
  function MissingIn(rows: seq<Row>, cols: seq<string>): (e: Error)
    requires !AllHaveColumns(rows, cols)
    ensures e.MissingField? && e.column in cols
    ensures exists r :: r in rows && e.column !in r
  {
    if HasColumns(rows[0], cols) then MissingIn(rows[1..], cols)
    else MissingField(FirstMissingColumn(rows[0], cols))
  }

  /** Key extraction with its KeyError. */
  function GetKey(r: Row, keys: seq<string>): (res: Result<Key>)
    ensures res.Ok? <==> HasColumns(r, keys)
    ensures res.Ok? ==> |res.value| == |keys| && forall i :: 0 <= i < |keys| ==> res.value[i] == r[keys[i]]
    ensures res.Err? ==> res.error.MissingField? && res.error.column in keys && res.error.column !in r
    ensures res.Err? ==> exists j :: 0 <= j < |keys| && keys[j] == res.error.column && forall i :: 0 <= i < j ==> keys[i] in r
  {
    if HasColumns(r, keys) then Ok(KeyOf(r, keys)) else Err(MissingField(FirstMissingColumn(r, keys)))
  }

  /** The in-order concatenation of a sequence of sequences. */
  function Flatten<T>(ss: seq<seq<T>>): seq<T> {
    if ss == [] then [] else ss[0] + Flatten(ss[1..])
  }

  lemma {:induction false} FlattenAppend<T>(a: seq<seq<T>>, b: seq<seq<T>>)
    ensures Flatten(a + b) == Flatten(a) + Flatten(b)
  {
    if a == [] {
      assert a + b == b;
    } else {
      assert (a + b)[1..] == a[1..] + b;
      FlattenAppend(a[1..], b);
    }
  }
}
