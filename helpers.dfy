/**
 * helpers.go: the linear search used for name selection, the value
 * normalisation applied to every inserted column, and the builder of a
 * single-row parameterised insert statement.
 */
module Helpers {
  import opened Wrappers
  import opened Strings

  newtype int32 = x: int | -0x8000_0000 <= x < 0x8000_0000
  newtype int64 = x: int | -0x8000_0000_0000_0000 <= x < 0x8000_0000_0000_0000

  /**
   * A Go value of dynamic type `interface{}`. Go's `int` is taken to be 64
   * bits wide; floating-point values are kept as their IEEE bit patterns and
   * never computed on. `Other` is any value of another dynamic type (slices,
   * maps, structs, unsigned integers, ...), named by its type and parts.
   */
  datatype Value =
    | Nil
    | Bool(b: bool)
    | Int(i: int64)
    | Int32(i32: int32)
    | Int64(i64: int64)
    | Float32(f32: bv32)
    | Float64(f64: bv64)
    | Str(s: string)
    | Other(typeName: string, parts: seq<Value>)

  /** The values `parseValue` hands back as they are: nil and the scalar cases of its type switch. */
  predicate IsScalar(v: Value)
  {
    !v.Other?
  }

  /** `json.Marshal`: the encoding of a value, or the error the encoder reports. */
  type Marshal = Value -> Result<string, string>

  /**
   * `parseValue`: scalars and nil are returned unchanged (strings such as
   * "12" or "true" are not converted); any other value becomes the string of
   * its JSON encoding. When the encoder fails, `parseValue` panics with its
   * error, which is `Failure(error)` here.
   */
  function ParseValue(v: Value, marshal: Marshal): (r: Result<Value, string>)
    ensures r.Success? ==> IsScalar(r.value)
    ensures IsScalar(v) ==> r == Success(v)
    ensures !IsScalar(v) ==> (r.Success? <==> marshal(v).Success?)
    ensures !IsScalar(v) && r.Success? ==> r.value == Str(marshal(v).value)
    ensures r.Failure? ==> marshal(v) == Failure(r.error)
  {
    if IsScalar(v) then Success(v)
    else
      match marshal(v)
      case Success(json) => Success(Str(json))
      case Failure(e) => Failure(e)
  }

  /** Parsing a parsed value changes nothing more: every result is a scalar. */
  lemma ParseValueIdempotent(v: Value, marshal: Marshal)
    requires ParseValue(v, marshal).Success?
    ensures ParseValue(ParseValue(v, marshal).value, marshal) == ParseValue(v, marshal)
  {
  }

  /** `findString`: the first position of `val` in `slice`, or (-1, false). */
  method FindString(slice: seq<string>, val: string) returns (i: int, found: bool)
    ensures found <==> val in slice
    ensures found ==> 0 <= i < |slice| && slice[i] == val && val !in slice[..i]
    ensures !found ==> i == -1
  {
    var k := 0;
    while k < |slice|
      invariant 0 <= k <= |slice|
      invariant val !in slice[..k]
    {
      if slice[k] == val {
        return k, true;
      }
      k := k + 1;
    }
    assert slice[..k] == slice;
    return -1, false;
  }

  /** The search of helpers_test.go: the first of two "fish" is at position 2. */
  method FindFirstFish() returns (pos: int, found: bool)
    ensures pos == 2 && found
  {
    var input := ["dandy", "trout", "fish", "more", "fish", "ok"];
    assert input[2] == "fish";
    pos, found := FindString(input, "fish");
    assert input[..2] == ["dandy", "trout"];
  }

  /** A row to insert: column names with their values, in iteration order. */
  type Row = seq<(string, Value)>

  /** A prepared insert: the statement text and its positional arguments. */
  datatype Prepared = Prepared(query: string, args: seq<Value>)

  function Columns(row: Row): (names: seq<string>)
    ensures |names| == |row|
    ensures forall i :: 0 <= i < |row| ==> names[i] == row[i].0
  {
    seq(|row|, i requires 0 <= i < |row| => row[i].0)
  }

  function Placeholders(n: nat): (marks: seq<string>)
    ensures |marks| == n
    ensures forall i :: 0 <= i < n ==> marks[i] == "?"
  {
    seq(n, _ => "?")
  }

  /**
   * The statement text `prepareStatement` produces for a table and its column
   * names: the insert clause of the table, the columns, then the placeholder
   * list in parentheses at the very end.
   */
  function InsertStatement(table: string, columns: seq<string>): (q: string)
    ensures "insert into " + table + " (" <= q
    ensures var tail := "values (" + Join(Placeholders(|columns|), ", ") + ")";
            |tail| <= |q| && q[|q| - |tail|..] == tail
  {
    ("insert into " + table + " (" + Join(columns, ", ") + ") ")
      + ("values (" + Join(Placeholders(|columns|), ", ") + ")")
  }

  /** The only question marks a statement adds are its placeholders, one per column. */
  lemma StatementPlaceholders(table: string, columns: seq<string>)
    ensures Count('?', InsertStatement(table, columns))
              == Count('?', table) + Count('?', Join(columns, ", ")) + |columns|
  {
    var left, right := "insert into " + table + " (" + Join(columns, ", ") + ") ",
                       "values (" + Join(Placeholders(|columns|), ", ") + ")";
    Enclosed('?', "insert into ", table, " (");
    Enclosed('?', "insert into " + table + " (", Join(columns, ", "), ") ");
    PlaceholderCount(|columns|);
    Enclosed('?', "values (", Join(Placeholders(|columns|), ", "), ")");
    CountAppend('?', left, right);
  }

  /** Text between two pieces without `c` holds as many `c` as the whole. */
  lemma Enclosed(c: char, a: string, b: string, d: string)
    requires c !in d
    ensures Count(c, a + b + d) == Count(c, a) + Count(c, b)
  {
    CountAppend(c, a, b);
    CountAppend(c, a + b, d);
  }

  /**
   * `prepareStatement`: builds the column list and the placeholder list side
   * by side, one row entry at a time, and parses each value into the
   * arguments. A panic of `parseValue` aborts the whole call with its error.
   */
  method PrepareStatement(table: string, row: Row, marshal: Marshal) returns (res: Result<Prepared, string>)
    ensures res.Success? <==> forall i :: 0 <= i < |row| ==> ParseValue(row[i].1, marshal).Success?
    ensures res.Success? ==> res.value.query == InsertStatement(table, Columns(row))
    ensures res.Success? ==> |res.value.args| == |row|
    ensures res.Success? ==> forall i :: 0 <= i < |row| ==> ParseValue(row[i].1, marshal) == Success(res.value.args[i])
    ensures res.Failure? ==> exists k :: 0 <= k < |row| && ParseValue(row[k].1, marshal) == Failure(res.error)
                                      && forall j :: 0 <= j < k ==> ParseValue(row[j].1, marshal).Success?
  {
    var left := "insert into " + table + " (";
    var right := "values (";
    ghost var leftHead, rightHead := left, right;
    var args: seq<Value> := [];
    var i := 0;
    while i < |row|
      invariant 0 <= i <= |row|
      invariant left == leftHead + Join(Columns(row)[..i], ", ")
      invariant right == rightHead + Join(Placeholders(|row|)[..i], ", ")
      invariant |args| == i
      invariant forall j :: 0 <= j < i ==> ParseValue(row[j].1, marshal) == Success(args[j])
    {
      var (k, v) := row[i];
      BuilderStep(leftHead, Columns(row), i);
      BuilderStep(rightHead, Placeholders(|row|), i);
      if i == 0 {
        left := left + k;
        right := right + "?";
      } else {
        left := left + (", " + k);
        right := right + ", ?";
      }
      var parsed := ParseValue(v, marshal);
      if parsed.Failure? {
        assert ParseValue(row[i].1, marshal) == Failure(parsed.error);
        return Failure(parsed.error);
      }
      args := args + [parsed.value];
      i := i + 1;
    }
    assert Columns(row)[..i] == Columns(row) && Placeholders(|row|)[..i] == Placeholders(|row|);
    left := left + ") ";
    right := right + ")";
    left := left + right;
    return Success(Prepared(left, args));
  }

  /** One round of a builder loop: the text so far is extended by the next item, behind ", " unless it is the first. */
  lemma BuilderStep(head: string, items: seq<string>, i: nat)
    requires i < |items|
    ensures head + Join(items[..i], ", ") + (if i == 0 then items[i] else ", " + items[i])
              == head + Join(items[..i + 1], ", ")
  {
    var done, x := items[..i], items[i];
    assert items[..i + 1] == done + [x];
    JoinSnoc(done, x, ", ");
    if i == 0 {
      assert done == [];
    } else {
      assert head + Join(done, ", ") + (", " + x) == head + (Join(done, ", ") + ", " + x);
    }
  }

  /** The placeholder list holds one '?' per column. */
  lemma {:induction false} PlaceholderCount(n: nat)
    ensures Count('?', Join(Placeholders(n), ", ")) == n
  {
    if n > 1 {
      PlaceholderCount(n - 1);
      JoinSnoc(Placeholders(n - 1), "?", ", ");
      assert Placeholders(n) == Placeholders(n - 1) + ["?"];
      CountAppend('?', Join(Placeholders(n - 1), ", "), ", ");
      CountAppend('?', Join(Placeholders(n - 1), ", ") + ", ", "?");
    }
  }

  /** Joining comma-free names with ", " puts exactly one comma between neighbours. */
  lemma {:induction false} SeparatorCount(names: seq<string>)
    requires |names| >= 1
    requires forall i :: 0 <= i < |names| ==> ',' !in names[i]
    ensures Count(',', Join(names, ", ")) == |names| - 1
  {
    if |names| > 1 {
      SeparatorCount(names[1..]);
      assert ',' !in names[0];
      CountAppend(',', names[0], ", ");
      CountAppend(',', names[0] + ", ", Join(names[1..], ", "));
    }
  }

  /**
   * For a non-empty row whose column names hold no comma, the column list
   * and the placeholder list each split into one piece per row entry, and
   * the placeholder list holds one '?' per entry.
   */
  lemma StatementShape(row: Row)
    requires |row| >= 1
    requires forall i :: 0 <= i < |row| ==> ',' !in row[i].0
    ensures |Split(Join(Columns(row), ", "), ',')| == |row|
    ensures |Split(Join(Placeholders(|row|), ", "), ',')| == |row|
    ensures Count('?', Join(Placeholders(|row|), ", ")) == |row|
  {
    SeparatorCount(Columns(row));
    SeparatorCount(Placeholders(|row|));
    PlaceholderCount(|row|);
  }

  lemma JoinPair(a: string, b: string, sep: string)
    ensures Join([a, b], sep) == a + sep + b
  {
    assert [a, b][1..] == [b];
  }

  /** The statement of helpers_test.go for the table "categories", built as its two builders hold it. */
  lemma CategoriesStatement()
    ensures InsertStatement("categories", ["id", "name"])
         == "insert into categories (id, name) " + "values (?, ?)"
  {
    assert Placeholders(2) == ["?", "?"];
    JoinPair("id", "name", ", ");
    JoinPair("?", "?", ", ");
    assert "insert into " + "categories" + " (" + ("id" + ", " + "name") + ") " == "insert into categories (id, name) ";
    assert "values (" + ("?" + ", " + "?") + ")" == "values (?, ?)";
  }

  /**
   * The test's row {id: "100", name: "common"} in the order id, name: the
   * statement above, and the two strings unchanged as arguments, whatever the
   * JSON encoder does.
   */
  method CategoriesPrepared(marshal: Marshal) returns (res: Result<Prepared, string>)
    ensures res == Success(Prepared("insert into categories (id, name) " + "values (?, ?)",
                                    [Str("100"), Str("common")]))
  {
    var row: Row := [("id", Str("100")), ("name", Str("common"))];
    res := PrepareStatement("categories", row, marshal);
    assert res.Success?;
    var a := res.value.args;
    assert ParseValue(row[0].1, marshal) == Success(a[0]);
    assert ParseValue(row[1].1, marshal) == Success(a[1]);
    assert a == [a[0], a[1]];
    assert Columns(row) == ["id", "name"];
    CategoriesStatement();
  }
}
