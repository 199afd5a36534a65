/** The row mappers of the operation library.  Each takes one row and yields
    zero or more rows; a mapper that rewrites a column yields a copy of the
    row with only that column replaced. */
module Mappers {
  import opened Values
  import Nodes

  // --------------------------------------------------------------------
  // FilterPunctuation
  // --------------------------------------------------------------------

  /** The 32 ASCII punctuation characters of Python's `string.punctuation`. */
  const Punctuation: string := "!\"#$%&'()*+,-./:;<=>?@[\\]^_`{|}~"

  /** The printable ASCII characters that are neither letters, digits nor the space. */
  predicate IsPunctuation(c: char) {
    ('!' <= c <= '/') || (':' <= c <= '@') || ('[' <= c <= '`') || ('{' <= c <= '~')
  }

  /** Those are exactly the characters of `string.punctuation`. */
  lemma PunctuationRanges(c: char)
    ensures |Punctuation| == 32
    ensures IsPunctuation(c) <==> c in Punctuation
  {
  }

  /** `"".join([c for c in txt if c not in p])` */
  function RemovePunctuation(txt: string): (t: string)
    ensures |t| <= |txt|
    ensures forall i :: 0 <= i < |t| ==> !IsPunctuation(t[i])
    ensures (forall i :: 0 <= i < |txt| ==> !IsPunctuation(txt[i])) ==> t == txt
    ensures |txt| == 1 && IsPunctuation(txt[0]) ==> t == []
  {
    if txt == [] then []
    else (if IsPunctuation(txt[0]) then [] else [txt[0]]) + RemovePunctuation(txt[1..])
  }

  /** Filtering works character by character: on a concatenation it is the
      concatenation of the filtered parts, so the kept characters keep their order. */
  lemma {:induction false} RemovePunctuationAppend(a: string, b: string)
    ensures RemovePunctuation(a + b) == RemovePunctuation(a) + RemovePunctuation(b)
  {
    if a != [] {
      assert (a + b)[1..] == a[1..] + b;
      RemovePunctuationAppend(a[1..], b);
    } else {
      assert a + b == b;
    }
  }

  /** `FilterPunctuation(column)` on row `r`.  A string is filtered; an empty
      list joins to the empty string; any other value is a TypeError. */
  function FilterPunctuation(column: string, r: Row): (res: Result<seq<Row>>)
    ensures res.Err? <==> column !in r || !(r[column].StrV? || r[column] == ListV([]))
    ensures column !in r ==> res == Err(MissingField(column))
    ensures res.Ok? ==> |res.value| == 1 && res.value[0].Keys == r.Keys
    ensures res.Ok? ==> forall k :: k in r && k != column ==> res.value[0][k] == r[k]
    ensures res.Ok? ==> res.value[0][column] == StrV(RemovePunctuation(if r[column].StrV? then r[column].s else []))
  {
    if column !in r then Err(MissingField(column))
    else match r[column]
      case StrV(s) => Ok([r[column := StrV(RemovePunctuation(s))]])
      case ListV(l) => if l == [] then Ok([r[column := StrV([])]]) else Err(TypeMismatch(column))
      case _ => Err(TypeMismatch(column))
  }

  // --------------------------------------------------------------------
  // LowerCase
  // --------------------------------------------------------------------

  predicate IsUpper(c: char) { 'A' <= c <= 'Z' }

  function Lower(c: char): (d: char)
    ensures !IsUpper(d)
    ensures IsUpper(c) ==> d as int == c as int + 32
    ensures !IsUpper(c) ==> d == c
  {
    if IsUpper(c) then (c as int + 32) as char else c
  }

  /** `txt.lower()` on the ASCII letters. */
  function LowerString(txt: string): (t: string)
    ensures |t| == |txt|
    ensures forall i :: 0 <= i < |txt| ==> t[i] == Lower(txt[i])
  {
    seq(|txt|, i requires 0 <= i < |txt| => Lower(txt[i]))
  }

  /** Lower-casing twice is lower-casing once, and text without capitals is kept. */
  lemma LowerStringIdempotent(txt: string)
    ensures LowerString(LowerString(txt)) == LowerString(txt)
    ensures (forall i :: 0 <= i < |txt| ==> !IsUpper(txt[i])) ==> LowerString(txt) == txt
  {
  }

  function LowerCase(column: string, r: Row): (res: Result<seq<Row>>)
    ensures res.Err? <==> column !in r || !r[column].StrV?
    ensures column !in r ==> res == Err(MissingField(column))
    ensures res.Ok? ==> |res.value| == 1 && res.value[0].Keys == r.Keys
    ensures res.Ok? ==> forall k :: k in r && k != column ==> res.value[0][k] == r[k]
    ensures res.Ok? ==> res.value[0][column].StrV? && |res.value[0][column].s| == |r[column].s|
    ensures res.Ok? ==> forall i :: 0 <= i < |r[column].s| ==> res.value[0][column].s[i] == Lower(r[column].s[i])
  {
    if column !in r then Err(MissingField(column))
    else if !r[column].StrV? then Err(TypeMismatch(column))
    else Ok([r[column := StrV(LowerString(r[column].s))]])
  }

  // --------------------------------------------------------------------
  // Grep and Dummy
  // --------------------------------------------------------------------

  /** Keep the row, unchanged, exactly when the condition holds of its column. */
  function Grep(column: string, condition: Value -> bool, r: Row): (res: Result<seq<Row>>)
    ensures res.Err? <==> column !in r
    ensures res.Err? ==> res.error == MissingField(column)
    ensures res.Ok? ==> (condition(r[column]) <==> res.value == [r]) && (!condition(r[column]) <==> res.value == [])
  {
    if column !in r then Err(MissingField(column))
    else if condition(r[column]) then Ok([r])
    else Ok([])
  }

  /** The rows whose column satisfies the condition, in order. */
  function Selected(column: string, condition: Value -> bool, rows: seq<Row>): seq<Row>
    requires forall r :: r in rows ==> column in r
  {
    if rows == [] then []
    else (if condition(rows[0][column]) then [rows[0]] else []) + Selected(column, condition, rows[1..])
  }

  /** Mapping Grep over rows that all have the column filters them. */
  lemma {:induction false} GrepSelects(column: string, condition: Value -> bool, rows: seq<Row>)
    requires forall r :: r in rows ==> column in r
    ensures Nodes.MapMe((r: Row) => Grep(column, condition, r), rows) == Ok(Selected(column, condition, rows))
  {
    if rows != [] {
      assert rows[0] in rows;
      GrepSelects(column, condition, rows[1..]);
    }
  }

  function Dummy(r: Row): (res: Result<seq<Row>>)
    ensures res.Ok? && |res.value| == 1
  {
    Ok([r])
  }

  /** Dummy passes every row through: mapping it is the identity. */
  lemma {:induction false} DummyIdentity(rows: seq<Row>)
    ensures Nodes.MapMe(Dummy, rows) == Ok(rows)
  {
    if rows != [] {
      DummyIdentity(rows[1..]);
      assert rows == [rows[0]] + rows[1..];
    }
  }

  // --------------------------------------------------------------------
  // Split
  // --------------------------------------------------------------------

  predicate OccursAt(txt: string, sep: string, i: nat) {
    i + |sep| <= |txt| && txt[i..i + |sep|] == sep
  }

  ghost predicate Free(txt: string, sep: string) {
    forall i: nat :: !OccursAt(txt, sep, i)
  }

  lemma OccursShift(txt: string, sep: string, j: nat)
    requires txt != []
    ensures OccursAt(txt[1..], sep, j) <==> OccursAt(txt, sep, j + 1)
  {
    if j + |sep| <= |txt[1..]| {
      assert txt[1..][j..j + |sep|] == txt[j + 1..j + 1 + |sep|];
    }
  }

  /** The leftmost occurrence of `sep` in `txt`. */
  function FirstOccurrence(txt: string, sep: string): (o: Option<nat>)
    ensures o.Some? ==> OccursAt(txt, sep, o.value) && forall j: nat :: j < o.value ==> !OccursAt(txt, sep, j)
    ensures o.None? ==> Free(txt, sep)
    decreases |txt|
  {
    if |txt| < |sep| then None
    else if txt[..|sep|] == sep then Some(0)
    else
      var rest := FirstOccurrence(txt[1..], sep);
      assert !OccursAt(txt, sep, 0);
      forall j: nat ensures OccursAt(txt[1..], sep, j) <==> OccursAt(txt, sep, j + 1) {
        OccursShift(txt, sep, j);
      }
      if rest.None? then
        assert forall j: nat :: !OccursAt(txt, sep, j) by {
          forall j: nat ensures !OccursAt(txt, sep, j) {
            if j > 0 { assert !OccursAt(txt[1..], sep, j - 1); }
          }
        }
        None
      else
        assert forall j: nat :: j < rest.value + 1 ==> !OccursAt(txt, sep, j) by {
          forall j: nat | j < rest.value + 1 ensures !OccursAt(txt, sep, j) {
            if j > 0 { assert !OccursAt(txt[1..], sep, j - 1); }
          }
        }
        Some(rest.value + 1)
  }

  /** A prefix that ends before the first occurrence holds no occurrence. */
  lemma PrefixFree(txt: string, sep: string, i: nat)
    requires sep != [] && i <= |txt| && forall j: nat :: j < i ==> !OccursAt(txt, sep, j)
    ensures Free(txt[..i], sep)
  {
    forall j: nat | OccursAt(txt[..i], sep, j) ensures false {
      assert txt[..i][j..j + |sep|] == txt[j..j + |sep|];
      assert OccursAt(txt, sep, j);
    }
  }

  /** `txt.split(sep)` with a non-empty separator. */
  function SplitOn(txt: string, sep: string): (parts: seq<string>)
    requires sep != []
    ensures parts != []
    ensures forall i :: 0 <= i < |parts| ==> Free(parts[i], sep)
    decreases |txt|
  {
    match FirstOccurrence(txt, sep)
    case None => [txt]
    case Some(i) =>
      PrefixFree(txt, sep, i);
      [txt[..i]] + SplitOn(txt[i + |sep|..], sep)
  }

  /** `sep.join(parts)` */
  function JoinWith(parts: seq<string>, sep: string): string {
    if parts == [] then []
    else if |parts| == 1 then parts[0]
    else parts[0] + sep + JoinWith(parts[1..], sep)
  }

  /** Joining the parts with the separator gives the text back. */
  lemma {:induction false} SplitOnJoin(txt: string, sep: string)
    requires sep != []
    ensures JoinWith(SplitOn(txt, sep), sep) == txt
    decreases |txt|
  {
    match FirstOccurrence(txt, sep)
    case None =>
    case Some(i) =>
      var rest := txt[i + |sep|..];
      SplitOnJoin(rest, sep);
      assert txt == txt[..i] + sep + rest;
  }

  /** Python's whitespace for `str.split()`. */
  predicate IsSpace(c: char) {
    ('\t' <= c <= '\r') || ('\U{1C}' <= c <= ' ') || c == '\U{85}' || c == '\U{A0}' || c == '\U{1680}' ||
    ('\U{2000}' <= c <= '\U{200A}') || c == '\U{2028}' || c == '\U{2029}' || c == '\U{202F}' ||
    c == '\U{205F}' || c == '\U{3000}'
  }

  predicate NoSpace(w: string) {
    forall i :: 0 <= i < |w| ==> !IsSpace(w[i])
  }

  /** The end of the word that starts at `i`. */
  function WordEnd(txt: string, i: nat): (j: nat)
    requires i <= |txt|
    ensures i <= j <= |txt| && (j == |txt| || IsSpace(txt[j]))
    ensures forall k :: i <= k < j ==> !IsSpace(txt[k])
    decreases |txt| - i
  {
    if i == |txt| || IsSpace(txt[i]) then i else WordEnd(txt, i + 1)
  }

  /** `txt.split()`: the maximal runs of non-whitespace characters. */
  function Words(txt: string): (ws: seq<string>)
    ensures forall i :: 0 <= i < |ws| ==> ws[i] != [] && NoSpace(ws[i])
    decreases |txt|
  {
    if txt == [] then []
    else if IsSpace(txt[0]) then Words(txt[1..])
    else
      var n := WordEnd(txt, 0);
      [txt[..n]] + Words(txt[n..])
  }

  /** The text without its whitespace. */
  function NonSpace(txt: string): string {
    if txt == [] then [] else (if IsSpace(txt[0]) then [] else [txt[0]]) + NonSpace(txt[1..])
  }

  lemma {:induction false} NonSpaceAppend(a: string, b: string)
    ensures NonSpace(a + b) == NonSpace(a) + NonSpace(b)
  {
    if a != [] {
      assert (a + b)[1..] == a[1..] + b;
      NonSpaceAppend(a[1..], b);
    } else {
      assert a + b == b;
    }
  }

  lemma {:induction false} NonSpaceOfWord(w: string)
    requires NoSpace(w)
    ensures NonSpace(w) == w
  {
    if w != [] { NonSpaceOfWord(w[1..]); }
  }

  /** The words hold every non-whitespace character, in order. */
  lemma {:induction false} WordsKeepText(txt: string)
    ensures Flatten(Words(txt)) == NonSpace(txt)
    decreases |txt|
  {
    if txt != [] {
      if IsSpace(txt[0]) {
        WordsKeepText(txt[1..]);
      } else {
        var n := WordEnd(txt, 0);
        WordsKeepText(txt[n..]);
        assert txt == txt[..n] + txt[n..];
        NonSpaceAppend(txt[..n], txt[n..]);
        NonSpaceOfWord(txt[..n]);
      }
    }
  }

  /** Splitting words joined by single spaces gives the words back. */
  lemma {:induction false} WordsOfJoin(ws: seq<string>)
    requires forall i :: 0 <= i < |ws| ==> ws[i] != [] && NoSpace(ws[i])
    ensures Words(JoinWith(ws, " ")) == ws
  {
    if ws != [] {
      var w := ws[0];
      var txt := JoinWith(ws, " ");
      assert txt[..|w|] == w;
      WordEndOfWord(txt, w);
      if |ws| == 1 {
        assert txt[|w|..] == [];
      } else {
        var rest := JoinWith(ws[1..], " ");
        assert txt == w + " " + rest;
        assert txt[|w|..] == " " + rest;
        assert (" " + rest)[1..] == rest;
        WordsOfJoin(ws[1..]);
      }
    }
  }

  lemma WordEndOfWord(txt: string, w: string)
    requires w != [] && NoSpace(w) && |w| <= |txt| && txt[..|w|] == w
    requires |w| == |txt| || IsSpace(txt[|w|])
    ensures WordEnd(txt, 0) == |w|
  {
    assert forall k :: 0 <= k < |w| ==> txt[k] == w[k];
  }

  /** `Split(column, separator)`: `None` splits on whitespace; the empty
      separator is a ValueError. */
  function SplitText(txt: string, separator: Option<string>): Result<seq<string>> {
    match separator
    case None => Ok(Words(txt))
    case Some(sep) => if sep == [] then Err(EmptySeparator) else Ok(SplitOn(txt, sep))
  }

  /** One copy of the row per part, each with only the column replaced by the part. */
  function SplitRows(r: Row, column: string, parts: seq<string>): (rows: seq<Row>)
    requires column in r
    ensures |rows| == |parts|
    ensures forall i :: 0 <= i < |parts| ==> rows[i].Keys == r.Keys && rows[i][column] == StrV(parts[i])
    ensures forall i, k :: 0 <= i < |parts| && k in r && k != column ==> rows[i][k] == r[k]
  {
    seq(|parts|, i requires 0 <= i < |parts| => r[column := StrV(parts[i])])
  }

  function Split(column: string, separator: Option<string>, r: Row): (res: Result<seq<Row>>)
    ensures column !in r ==> res == Err(MissingField(column))
    ensures column in r && !r[column].StrV? ==> res == Err(TypeMismatch(column))
    ensures column in r && r[column].StrV? ==> (separator == Some([]) <==> res == Err(EmptySeparator))
    ensures column in r && r[column].StrV? && res.Ok? ==>
      SplitText(r[column].s, separator).Ok? && res.value == SplitRows(r, column, SplitText(r[column].s, separator).value)
  {
    if column !in r then Err(MissingField(column))
    else if !r[column].StrV? then Err(TypeMismatch(column))
    else
      var parts :- SplitText(r[column].s, separator);
      Ok(SplitRows(r, column, parts))
  }

  /** The text in `column` of each row. */
  function ColumnTexts(rows: seq<Row>, column: string): seq<string>
    requires forall i :: 0 <= i < |rows| ==> column in rows[i] && rows[i][column].StrV?
  {
    seq(|rows|, i requires 0 <= i < |rows| && column in rows[i] && rows[i][column].StrV? => rows[i][column].s)
  }

  /** With an explicit separator, the column values of the output rows joined
      with the separator give back the original text. */
  lemma SplitRoundTrip(column: string, sep: string, r: Row)
    requires sep != [] && column in r && r[column].StrV?
    ensures Split(column, Some(sep), r).Ok?
    ensures var rows := Split(column, Some(sep), r).value;
      (forall i :: 0 <= i < |rows| ==> column in rows[i] && rows[i][column].StrV?) &&
      JoinWith(ColumnTexts(rows, column), sep) == r[column].s
  {
    var parts := SplitOn(r[column].s, sep);
    var rows := Split(column, Some(sep), r).value;
    SplitOnJoin(r[column].s, sep);
    assert ColumnTexts(rows, column) == parts;
  }

  // --------------------------------------------------------------------
  // Cut
  // --------------------------------------------------------------------

  /** `{k: r[k] for k in columns}`; the first missing column is a KeyError. */
  function Cut(columns: seq<string>, r: Row): (res: Result<seq<Row>>)
    ensures res.Ok? <==> HasColumns(r, columns)
    ensures res.Err? ==> res.error.MissingField? && res.error.column in columns && res.error.column !in r
    ensures res.Ok? ==> |res.value| == 1 && res.value[0].Keys == (set c | c in columns)
    ensures res.Ok? ==> forall c :: c in columns ==> res.value[0][c] == r[c]
  {
    if !HasColumns(r, columns) then Err(MissingField(FirstMissingColumn(r, columns)))
    else Ok([map c | c in columns :: r[c]])
  }

  // --------------------------------------------------------------------
  // Product
  // --------------------------------------------------------------------

  /** `acc *= r[arg]` for each argument column in turn. */
  function ProductFrom(acc: Value, r: Row, columns: seq<string>): Result<Value>
    decreases |columns|
  {
    if columns == [] then Ok(acc)
    else if columns[0] !in r then Err(MissingField(columns[0]))
    else
      var next :- Mul(acc, r[columns[0]], columns[0]);
      ProductFrom(next, r, columns[1..])
  }

  /** The product of the listed columns, as a real. */
  ghost function NumProduct(r: Row, columns: seq<string>): real
    requires forall c :: c in columns ==> c in r && IsNumeric(r[c])
  {
    if columns == [] then 1.0 else Num(r[columns[0]]) * NumProduct(r, columns[1..])
  }

  /** The product starts from 1 and multiplies every listed column in; it
      fails exactly when a column is missing or not a number; it stays an
      int when every factor is one. */
  lemma {:induction false} ProductFromValue(acc: Value, r: Row, columns: seq<string>)
    requires IsNumeric(acc)
    decreases |columns|
    ensures ProductFrom(acc, r, columns).Ok? <==> forall c :: c in columns ==> c in r && IsNumeric(r[c])
    ensures ProductFrom(acc, r, columns).Ok? ==>
      IsNumeric(ProductFrom(acc, r, columns).value) &&
      Num(ProductFrom(acc, r, columns).value) == Num(acc) * NumProduct(r, columns)
    ensures ProductFrom(acc, r, columns).Ok? && acc.IntV? && (forall c :: c in columns ==> r[c].IntV?) ==>
      ProductFrom(acc, r, columns).value.IntV?
  {
    if columns != [] {
      var c := columns[0];
      if c in r && IsNumeric(r[c]) {
        var next := Mul(acc, r[c], c).value;
        ProductFromValue(next, r, columns[1..]);
        if ProductFrom(acc, r, columns).Ok? {
          assert Num(acc) * (Num(r[c]) * NumProduct(r, columns[1..])) == (Num(acc) * Num(r[c])) * NumProduct(r, columns[1..]);
        }
      }
    }
  }

  /** `Product(*columns, column_result)` as a value. */
  function ProductRow(columns: seq<string>, result: string, r: Row): Result<seq<Row>> {
    var v :- ProductFrom(IntV(1), r, columns);
    Ok([r[result := v]])
  }

  /** The multiplying loop of `Product`. */
  method Product(columns: seq<string>, result: string, r: Row) returns (res: Result<seq<Row>>)
    ensures res == ProductRow(columns, result, r)
    ensures res.Ok? <==> forall c :: c in columns ==> c in r && IsNumeric(r[c])
    ensures res.Ok? ==> |res.value| == 1 && res.value[0].Keys == r.Keys + {result}
    ensures res.Ok? ==> forall k :: k in r && k != result ==> res.value[0][k] == r[k]
    ensures res.Ok? ==> IsNumeric(res.value[0][result]) && Num(res.value[0][result]) == NumProduct(r, columns)
  {
    var acc := IntV(1);
    var i := 0;
    while i < |columns|
      invariant 0 <= i <= |columns|
      invariant IsNumeric(acc)
      invariant ProductFrom(IntV(1), r, columns) == ProductFrom(acc, r, columns[i..])
    {
      var c := columns[i];
      assert columns[i..][0] == c && columns[i..][1..] == columns[i + 1..];
      if c !in r {
        res := Err(MissingField(c));
        ProductFromValue(IntV(1), r, columns);
        return;
      }
      var next := Mul(acc, r[c], c);
      if next.Err? {
        res := Err(next.error);
        ProductFromValue(IntV(1), r, columns);
        return;
      }
      acc := next.value;
      i := i + 1;
    }
    assert columns[i..] == [];
    res := Ok([r[result := acc]]);
    ProductFromValue(IntV(1), r, columns);
  }

  // --------------------------------------------------------------------
  // Divide and Velocity
  // --------------------------------------------------------------------

  /** `r[num] / r[den] if r[den] else None`: the denominator is read first;
      a falsy one gives None without reading the numerator. */
  function Divide(numerator: string, denominator: string, result: string, r: Row): (res: Result<seq<Row>>)
    ensures res.Ok? <==> (denominator in r &&
      (!Truthy(r[denominator]) || (numerator in r && IsNumeric(r[numerator]) && IsNumeric(r[denominator]))))
    ensures denominator !in r ==> res == Err(MissingField(denominator))
    ensures res.Ok? ==> |res.value| == 1 && res.value[0].Keys == r.Keys + {result}
    ensures res.Ok? ==> forall k :: k in r && k != result ==> res.value[0][k] == r[k]
    ensures res.Ok? && !Truthy(r[denominator]) ==> res.value[0][result] == NoneV
    ensures res.Ok? && Truthy(r[denominator]) ==>
      res.value[0][result].RealV? && res.value[0][result].r * Num(r[denominator]) == Num(r[numerator])
  {
    if denominator !in r then Err(MissingField(denominator))
    else if !Truthy(r[denominator]) then Ok([r[result := NoneV]])
    else if numerator !in r then Err(MissingField(numerator))
    else if !(IsNumeric(r[numerator]) && IsNumeric(r[denominator])) then Err(TypeMismatch(denominator))
    else Ok([r[result := RealV(Num(r[numerator]) / Num(r[denominator]))]])
  }

  /** `dist / time * 60 * 60 / 1000 if time else None`: metres per second to
      kilometres per hour. */
  function Velocity(distance: string, time: string, result: string, r: Row): (res: Result<seq<Row>>)
    ensures res.Ok? <==> (time in r &&
      (!Truthy(r[time]) || (distance in r && IsNumeric(r[distance]) && IsNumeric(r[time]))))
    ensures time !in r ==> res == Err(MissingField(time))
    ensures res.Ok? ==> |res.value| == 1 && res.value[0].Keys == r.Keys + {result}
    ensures res.Ok? ==> forall k :: k in r && k != result ==> res.value[0][k] == r[k]
    ensures res.Ok? && !Truthy(r[time]) ==> res.value[0][result] == NoneV
    ensures res.Ok? && Truthy(r[time]) ==>
      res.value[0][result].RealV? && res.value[0][result].r * Num(r[time]) * 1000.0 == Num(r[distance]) * 3600.0
  {
    if time !in r then Err(MissingField(time))
    else if !Truthy(r[time]) then Ok([r[result := NoneV]])
    else if distance !in r then Err(MissingField(distance))
    else if !(IsNumeric(r[distance]) && IsNumeric(r[time])) then Err(TypeMismatch(time))
    else Ok([r[result := RealV(Num(r[distance]) / Num(r[time]) * 60.0 * 60.0 / 1000.0)]])
  }
}
