/**
 * The schema registry of the table store (src/primitive_db/core.py): the
 * metadata map from table name to table structure, which `create_table`
 * and `drop_table` change in place and `list_tables` reports in insertion
 * order. The printed messages are modelled as outcome values.
 */
module Core {
  import Parser

  /** One column of a table: its name and its declared type. */
  datatype Column = Column(name: string, typ: string)

  /** The structure stored for a table: its columns and its rows. */
  datatype Table = Table(columns: seq<Column>, rows: seq<map<string, Parser.Value>>)

  /** What `create_table` reports. */
  datatype CreateOutcome =
    | AlreadyExists
    | InvalidName
    | InvalidType(column: string, typ: string)
    | DuplicateColumns
    | Created

  /** What `drop_table` reports. */
  datatype DropOutcome = NotFound | Dropped

  /** One line printed by `list_tables`. */
  datatype Line = NoTables | TableLine(name: string)

  /** The column every table starts with. */
  const IdColumn := Column("ID", "int")

  const ValidTypes: set<string> := {"int", "str", "bool"}

  // ---------------------------------------------------------------------------
  // Column lists
  // ---------------------------------------------------------------------------

  /** The columns a table is created with: `ID` first, then the given ones. */
  function WithId(columns: seq<Column>): (all: seq<Column>)
    ensures |all| == |columns| + 1 && all[0] == IdColumn
    ensures forall i :: 0 <= i < |columns| ==> all[i + 1] == columns[i]
  {
    [IdColumn] + columns
  }

  function Names(columns: seq<Column>): (names: seq<string>)
    ensures |names| == |columns|
    ensures forall i :: 0 <= i < |columns| ==> names[i] == columns[i].name
  {
    seq(|columns|, i requires 0 <= i < |columns| => columns[i].name)
  }

  /** No value occurs twice. */
  predicate Distinct(s: seq<string>) {
    forall i, j :: 0 <= i < j < |s| ==> s[i] != s[j]
  }

  predicate AllTyped(columns: seq<Column>) {
    forall i :: 0 <= i < |columns| ==> columns[i].typ in ValidTypes
  }

  /** `k` is the first column with a type outside the valid ones. */
  predicate FirstInvalidAt(columns: seq<Column>, k: nat) {
    k < |columns| && columns[k].typ !in ValidTypes && AllTyped(columns[..k])
  }

  /** All the conditions under which `create_table` adds a table. */
  predicate Accepts(tables: map<string, Table>, name: string, columns: seq<Column>) {
    name !in tables && name != [] && AllTyped(WithId(columns)) && Distinct(Names(WithId(columns)))
  }

  function Elements(s: seq<string>): set<string> {
    set x | x in s
  }

  /** Python's `len(names) != len(set(names))` test for duplicates: a
      sequence is free of duplicates exactly when its set is as large. */
  lemma {:induction false} DistinctIffCardinality(s: seq<string>)
    ensures |Elements(s)| <= |s|
    ensures Distinct(s) <==> |Elements(s)| == |s|
  {
    if s != [] {
      var rest := s[1..];
      DistinctIffCardinality(rest);
      assert Elements(s) == {s[0]} + Elements(rest) by {
        assert forall x :: x in s <==> x == s[0] || x in rest;
      }
      if s[0] in rest {
        assert !Distinct(s) by {
          var j :| 0 <= j < |rest| && rest[j] == s[0];
          assert s[0] == s[j + 1];
        }
      } else {
        assert Distinct(s) <==> Distinct(rest) by {
          if Distinct(rest) {
            forall i, j | 0 <= i < j < |s|
              ensures s[i] != s[j]
            {
              if i > 0 {
                assert s[i] == rest[i - 1] && s[j] == rest[j - 1];
              } else {
                assert s[j] == rest[j - 1];
              }
            }
          }
        }
      }
    }
  }

  /** A user column named `ID` clashes with the implicit one. */
  lemma IdColumnReserved(tables: map<string, Table>, name: string, columns: seq<Column>, k: nat)
    requires k < |columns| && columns[k].name == "ID"
    ensures !Accepts(tables, name, columns)
  {
    var names := Names(WithId(columns));
    assert names[0] == "ID" && names[k + 1] == "ID";
  }

  // ---------------------------------------------------------------------------
  // The checks of create_table
  // ---------------------------------------------------------------------------

  /** The checks `create_table` makes, in its order, without changing
      anything: an existing name, an empty name, the first column with an
      invalid type (the implicit `ID` column included), duplicate names. */
  method CheckNewTable(tables: map<string, Table>, name: string, columns: seq<Column>)
    returns (outcome: CreateOutcome)
    ensures name in tables ==> outcome == AlreadyExists
    ensures name !in tables && name == [] ==> outcome == InvalidName
    ensures outcome.InvalidType? <==> name !in tables && name != [] && !AllTyped(WithId(columns))
    ensures outcome.InvalidType? ==>
              exists k: nat :: FirstInvalidAt(WithId(columns), k)
                          && WithId(columns)[k] == Column(outcome.column, outcome.typ)
    ensures outcome == DuplicateColumns <==>
              name !in tables && name != [] && AllTyped(WithId(columns)) && !Distinct(Names(WithId(columns)))
    ensures outcome == Created <==> Accepts(tables, name, columns)
  {
    if name in tables {
      return AlreadyExists;
    }
    if name == [] {
      return InvalidName;
    }
    var withId := [IdColumn] + columns;
    for k := 0 to |withId|
      invariant AllTyped(withId[..k])
    {
      if withId[k].typ !in ValidTypes {
        assert FirstInvalidAt(withId, k);
        return InvalidType(withId[k].name, withId[k].typ);
      }
      assert withId[..k + 1] == withId[..k] + [withId[k]];
    }
    assert withId[..|withId|] == withId;
    var duplicates := HasDuplicateNames(withId);
    if duplicates {
      return DuplicateColumns;
    }
    return Created;
  }

  /** The duplicate test of `create_table`: the list of column names is
      shorter as a set than as a list exactly when some name repeats. */
  method HasDuplicateNames(columns: seq<Column>) returns (duplicates: bool)
    ensures duplicates <==> !Distinct(Names(columns))
  {
    var colNames := seq(|columns|, i requires 0 <= i < |columns| => columns[i].name);
    var unique := set n | n in colNames;
    assert colNames == Names(columns);
    assert unique == Elements(colNames);
    DistinctIffCardinality(colNames);
    duplicates := |colNames| != |unique|;
  }

  // ---------------------------------------------------------------------------
  // The metadata map
  // ---------------------------------------------------------------------------

  /** `s` without the occurrences of `x`, the others in their order. */
  function Without(s: seq<string>, x: string): (r: seq<string>)
    ensures |r| <= |s|
    ensures x !in r
  {
    if s == [] then []
    else if s[0] == x then Without(s[1..], x)
    else [s[0]] + Without(s[1..], x)
  }

  lemma {:induction false} WithoutMembers(s: seq<string>, x: string, y: string)
    ensures y in Without(s, x) <==> y in s && y != x
  {
    if s != [] {
      WithoutMembers(s[1..], x, y);
      assert y in s <==> y == s[0] || y in s[1..];
    }
  }

  lemma {:induction false} WithoutDistinct(s: seq<string>, x: string)
    requires Distinct(s)
    ensures Distinct(Without(s, x))
  {
    if s != [] {
      var rest := s[1..];
      DistinctTail(s);
      WithoutDistinct(rest, x);
      if s[0] != x {
        WithoutMembers(rest, x, s[0]);
        DistinctCons(s[0], Without(rest, x));
      }
    }
  }

  /** After the first name of a repeat-free order come other names only, none
      repeated. */
  lemma DistinctTail(s: seq<string>)
    requires Distinct(s) && s != []
    ensures Distinct(s[1..]) && s[0] !in s[1..]
  {
    var rest := s[1..];
    forall i, j | 0 <= i < j < |rest|
      ensures rest[i] != rest[j]
    {
      assert rest[i] == s[i + 1] && rest[j] == s[j + 1];
    }
    forall j | 0 <= j < |rest|
      ensures rest[j] != s[0]
    {
      assert rest[j] == s[j + 1];
    }
  }

  lemma DistinctCons(x: string, s: seq<string>)
    requires x !in s && Distinct(s)
    ensures Distinct([x] + s)
  {
    forall i, j | 0 <= i < j < |[x] + s|
      ensures ([x] + s)[i] != ([x] + s)[j]
    {
      assert ([x] + s)[j] == s[j - 1];
      if i > 0 {
        assert ([x] + s)[i] == s[i - 1];
      }
    }
  }

  /** Removing an absent name changes nothing. */
  lemma {:induction false} WithoutAbsent(s: seq<string>, x: string)
    requires x !in s
    ensures Without(s, x) == s
  {
    if s != [] {
      assert x !in s[1..] by {
        forall j | 0 <= j < |s[1..]|
          ensures s[1..][j] != x
        {
          assert s[1..][j] == s[j + 1];
        }
      }
      WithoutAbsent(s[1..], x);
    }
  }

  /** Removing the name at position `i` of a repeat-free order closes the gap
      and keeps every other name in its order. */
  lemma {:induction false} WithoutAt(s: seq<string>, i: nat)
    requires Distinct(s) && i < |s|
    ensures Without(s, s[i]) == s[..i] + s[i + 1..]
  {
    var rest := s[1..];
    DistinctTail(s);
    if i == 0 {
      WithoutAbsent(rest, s[0]);
      assert s[1..] == s[..0] + s[1..];
    } else {
      assert rest[i - 1] == s[i];
      WithoutAt(rest, i - 1);
      SpliceTail(s, i);
    }
  }

  /** Cutting out position `i > 0` keeps the first element in front. */
  lemma SpliceTail(s: seq<string>, i: nat)
    requires 0 < i < |s|
    ensures s[..i] + s[i + 1..] == [s[0]] + (s[1..][..i - 1] + s[1..][i..])
  {
  }

  /** Removing a name that was appended last gives the names before it. */
  lemma {:induction false} WithoutLast(s: seq<string>, x: string)
    requires x !in s
    ensures Without(s + [x], x) == s
  {
    if s != [] {
      assert (s + [x])[1..] == s[1..] + [x];
      WithoutLast(s[1..], x);
    }
  }

  /** The names record the keys of the map, each once, in insertion order. */
  ghost predicate Consistent(names: seq<string>, tables: map<string, Table>) {
    Distinct(names) && forall n :: n in tables <==> n in names
  }

  lemma CreateKeepsConsistent(names: seq<string>, tables: map<string, Table>, name: string, table: Table)
    requires Consistent(names, tables) && name !in tables
    ensures Consistent(names + [name], tables[name := table])
  {
    var s := names + [name];
    forall i, j | 0 <= i < j < |s|
      ensures s[i] != s[j]
    {
      if j == |names| {
        assert s[i] == names[i];
      } else {
        assert s[i] == names[i] && s[j] == names[j];
      }
    }
  }

  lemma DropKeepsConsistent(names: seq<string>, tables: map<string, Table>, name: string)
    requires Consistent(names, tables)
    ensures Consistent(Without(names, name), tables - {name})
  {
    WithoutDistinct(names, name);
    forall n
      ensures n in tables - {name} <==> n in Without(names, name)
    {
      WithoutMembers(names, name, n);
    }
  }

  /** Dropping a table that was just created restores the metadata. */
  lemma CreateThenDropRestores(names: seq<string>, tables: map<string, Table>, name: string, table: Table)
    requires Consistent(names, tables) && name !in tables
    ensures Without(names + [name], name) == names
    ensures tables[name := table] - {name} == tables
  {
    WithoutLast(names, name);
  }

  /** The metadata map of the database: table name to table structure.
      `names` holds the keys in the order they were inserted, which is the
      order a Python dictionary iterates in. */
  class Metadata {
    var names: seq<string>
    var tables: map<string, Table>

    ghost predicate Valid()
      reads this
    {
      Consistent(names, tables)
    }

    /** Metadata with no tables. */
    constructor ()
      ensures Valid() && names == [] && tables == map[]
    {
      names := [];
      tables := map[];
    }

    /** `create_table`: a rejected table leaves the metadata unchanged; an
        accepted one is added under its name with `ID` and the given columns
        in order and no rows, and nothing else changes. */
    method CreateTable(name: string, columns: seq<Column>) returns (outcome: CreateOutcome)
      requires Valid()
      modifies this
      ensures Valid()
      ensures name in old(tables) ==> outcome == AlreadyExists
      ensures name !in old(tables) && name == [] ==> outcome == InvalidName
      ensures outcome.InvalidType? <==> name !in old(tables) && name != [] && !AllTyped(WithId(columns))
      ensures outcome.InvalidType? ==>
                exists k: nat :: FirstInvalidAt(WithId(columns), k)
                            && WithId(columns)[k] == Column(outcome.column, outcome.typ)
      ensures outcome == DuplicateColumns <==>
                name !in old(tables) && name != [] && AllTyped(WithId(columns))
                && !Distinct(Names(WithId(columns)))
      ensures outcome == Created <==> Accepts(old(tables), name, columns)
      ensures outcome == Created ==>
                tables == old(tables)[name := Table(WithId(columns), [])] && names == old(names) + [name]
      ensures outcome != Created ==> tables == old(tables) && names == old(names)
    {
      outcome := CheckNewTable(tables, name, columns);
      if outcome == Created {
        CreateKeepsConsistent(names, tables, name, Table(WithId(columns), []));
        tables := tables[name := Table([IdColumn] + columns, [])];
        names := names + [name];
      }
    }

    /** `drop_table`: an absent name changes nothing; a present one is
        removed, and only it. */
    method DropTable(name: string) returns (outcome: DropOutcome)
      requires Valid()
      modifies this
      ensures Valid()
      ensures name !in old(tables) ==> outcome == NotFound && tables == old(tables) && names == old(names)
      ensures name in old(tables) ==>
                outcome == Dropped && tables == old(tables) - {name} && names == Without(old(names), name)
    {
      if name !in tables {
        return NotFound;
      }
      DropKeepsConsistent(names, tables, name);
      tables := tables - {name};
      names := Without(names, name);
      return Dropped;
    }

    /** `list_tables`: one line per table in insertion order, or the single
        "no tables" line. */
    method ListTables() returns (lines: seq<Line>)
      requires Valid()
      ensures tables == map[] ==> lines == [NoTables]
      ensures tables != map[] ==>
                |lines| == |names| && forall i :: 0 <= i < |names| ==> lines[i] == TableLine(names[i])
      ensures tables != map[] ==> forall n :: n in tables <==> TableLine(n) in lines
    {
      if tables == map[] {
        return [NoTables];
      }
      lines := [];
      for k := 0 to |names|
        invariant |lines| == k
        invariant forall i :: 0 <= i < k ==> lines[i] == TableLine(names[i])
      {
        lines := lines + [TableLine(names[k])];
      }
      forall n
        ensures n in tables <==> TableLine(n) in lines
      {
        if TableLine(n) in lines {
          var i :| 0 <= i < |lines| && lines[i] == TableLine(n);
          assert names[i] == n;
        }
        if n in names {
          var i :| 0 <= i < |names| && names[i] == n;
          assert lines[i] == TableLine(n);
        }
      }
    }
  }

  /** Creating a table under a name that is already taken is rejected, and
      the table first created under the name stays as it was. */
  method CreateTwice(name: string, columns: seq<Column>, others: seq<Column>)
    returns (first: CreateOutcome, second: CreateOutcome, stored: Table)
    ensures first == Created <==> Accepts(map[], name, columns)
    ensures first == Created ==> second == AlreadyExists && stored == Table(WithId(columns), [])
  {
    var metadata := new Metadata();
    first := metadata.CreateTable(name, columns);
    second := metadata.CreateTable(name, others);
    stored := if name in metadata.tables then metadata.tables[name] else Table([], []);
  }
}
