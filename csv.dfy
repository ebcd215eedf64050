/** The bulk CSV codec at the level of rows, each a sequence of fields: what the export writes
    through `CSVWriter.writeNext` and what the import reads back through `CSVReader.readNext`. */
module Csv {
  import opened Wrappers
  import opened Numbers
  import opened Entities
  import opened Levels

  type Row = seq<string>

  /** The header the export writes first. */
  const Header: Row := ["ID", "Username", "Level"]

  /** Why an import aborts: a row too short for the field read (`ArrayIndexOutOfBoundsException`
      at that index), or a level label no constant has (`IllegalArgumentException` from
      `valueOf`). */
  datatype ImportError = MissingField(index: nat) | UnknownLevel(levelName: string)

  /** A saved row: id, username and level are all set. */
  predicate Complete<L>(s: Student<L>)
  {
    s.id.Some? && s.username.Some? && s.level.Some?
  }

  /** One data row of the export: decimal id, username, level name. */
  function ExportRow<L>(s: Student<L>, name: L -> string): Row
    requires Complete(s)
  {
    [LongToString(s.id.value), s.username.value, name(s.level.value)]
  }

  /** The data rows of the export, one per record, in the order given. */
  function ExportBody<L>(xs: seq<Student<L>>, name: L -> string): seq<Row>
    requires forall i :: 0 <= i < |xs| ==> Complete(xs[i])
  {
    if xs == [] then [] else ExportBody(xs[..|xs| - 1], name) + [ExportRow(xs[|xs| - 1], name)]
  }

  /** Everything the export writes: the header, then the data rows. */
  function ExportRows<L>(xs: seq<Student<L>>, name: L -> string): seq<Row>
    requires forall i :: 0 <= i < |xs| ==> Complete(xs[i])
  {
    [Header] + ExportBody(xs, name)
  }

  /** One data row of the import: field 1 is the username, field 2 the level label; field 0 and
      any further fields are ignored. The entity has no id yet. */
  function ParseRow<L>(row: Row, valueOf: string -> Option<L>): Result<Student<L>, ImportError>
  {
    if |row| < 2 then Err(MissingField(1))
    else if |row| < 3 then Err(MissingField(2))
    else match valueOf(row[2])
      case None => Err(UnknownLevel(row[2]))
      case Some(l) => Ok(Student(None, Some(row[1]), Some(l)))
  }

  /** The data rows read in order; the first row that fails aborts with its error. */
  function ParseBody<L>(rows: seq<Row>, valueOf: string -> Option<L>): Result<seq<Student<L>>, ImportError>
  {
    if rows == [] then Ok([])
    else match ParseBody(rows[..|rows| - 1], valueOf)
      case Err(e) => Err(e)
      case Ok(batch) =>
        match ParseRow(rows[|rows| - 1], valueOf)
        case Err(e) => Err(e)
        case Ok(s) => Ok(batch + [s])
  }

  /** The whole import file: the first row is skipped unread, whatever it holds. */
  function ParseRows<L>(rows: seq<Row>, valueOf: string -> Option<L>): Result<seq<Student<L>>, ImportError>
  {
    if rows == [] then Ok([]) else ParseBody(rows[1..], valueOf)
  }

  /** The records of `xs` as the import would build them: same username and level, no id. */
  function WithoutIds<L>(xs: seq<Student<L>>): (r: seq<Student<L>>)
    ensures |r| == |xs|
    ensures forall i :: 0 <= i < |xs| ==> r[i] == Student(None, xs[i].username, xs[i].level)
  {
    seq(|xs|, i requires 0 <= i < |xs| => Student(None, xs[i].username, xs[i].level))
  }

  /** A row is accepted exactly when it has at least three fields and a known level label; the
      record then takes field 1 and the level of field 2, and no id. */
  lemma ParseRowSpec<L>(row: Row, valueOf: string -> Option<L>)
    ensures ParseRow(row, valueOf).Ok? <==> |row| >= 3 && valueOf(row[2]).Some?
    ensures ParseRow(row, valueOf).Ok? ==>
      ParseRow(row, valueOf).value == Student(None, Some(row[1]), valueOf(row[2]))
    ensures |row| >= 1 ==> ParseRow(row, valueOf) == ParseRow([""] + row[1..], valueOf)
  {
    if |row| >= 1 {
      var r' := [""] + row[1..];
      assert |r'| == |row| && forall i :: 1 <= i < |row| ==> r'[i] == row[i];
    }
  }

  /** The data rows parse when every one of them does, into one record per row in file order;
      otherwise the error is that of the first row that fails. */
  lemma {:induction false} ParseBodySpec<L>(rows: seq<Row>, valueOf: string -> Option<L>)
    ensures ParseBody(rows, valueOf).Ok? <==> forall i :: 0 <= i < |rows| ==> ParseRow(rows[i], valueOf).Ok?
    ensures ParseBody(rows, valueOf).Ok? ==>
      && |ParseBody(rows, valueOf).value| == |rows|
      && forall i :: 0 <= i < |rows| ==> ParseRow(rows[i], valueOf) == Ok(ParseBody(rows, valueOf).value[i])
    ensures ParseBody(rows, valueOf).Err? ==>
      exists j :: 0 <= j < |rows| && ParseRow(rows[j], valueOf) == Err(ParseBody(rows, valueOf).error)
        && forall i :: 0 <= i < j ==> ParseRow(rows[i], valueOf).Ok?
  {
    if rows != [] {
      var init := rows[..|rows| - 1];
      ParseBodySpec(init, valueOf);
      assert forall i :: 0 <= i < |init| ==> init[i] == rows[i];
      if ParseBody(init, valueOf).Err? {
        var j :| 0 <= j < |init| && ParseRow(init[j], valueOf) == Err(ParseBody(init, valueOf).error)
          && forall i :: 0 <= i < j ==> ParseRow(init[i], valueOf).Ok?;
        assert ParseRow(rows[j], valueOf) == Err(ParseBody(rows, valueOf).error);
      } else if ParseRow(rows[|rows| - 1], valueOf).Err? {
        assert ParseRow(rows[|rows| - 1], valueOf) == Err(ParseBody(rows, valueOf).error);
      }
    }
  }

  /** Once a prefix of the data rows fails, reading further rows does not change the error. */
  lemma {:induction false} ErrorPersists<L>(init: seq<Row>, rest: seq<Row>, valueOf: string -> Option<L>)
    requires ParseBody(init, valueOf).Err?
    ensures ParseBody(init + rest, valueOf) == ParseBody(init, valueOf)
  {
    if rest != [] {
      var rest' := rest[..|rest| - 1];
      ErrorPersists(init, rest', valueOf);
      assert (init + rest)[..|init + rest| - 1] == init + rest';
    } else {
      assert init + rest == init;
    }
  }

  /** An empty file, or one with only a header, imports nothing; the header is never inspected. */
  lemma EmptyImports<L>(header: Row, valueOf: string -> Option<L>)
    ensures ParseRows([], valueOf) == Ok([])
    ensures ParseRows([header], valueOf) == Ok([])
    ensures forall body: seq<Row> :: ParseRows([header] + body, valueOf) == ParseBody(body, valueOf)
  {
    forall body: seq<Row>
      ensures ParseRows([header] + body, valueOf) == ParseBody(body, valueOf)
    {
      assert ([header] + body)[1..] == body;
    }
  }

  /** The export has one row more than there are records: the header, then one row per record. */
  lemma {:induction false} ExportShape<L>(xs: seq<Student<L>>, name: L -> string)
    requires forall i :: 0 <= i < |xs| ==> Complete(xs[i])
    ensures |ExportRows(xs, name)| == |xs| + 1
    ensures ExportRows(xs, name)[0] == Header
    ensures forall i :: 0 <= i < |xs| ==>
      ExportRows(xs, name)[i + 1] == [LongToString(xs[i].id.value), xs[i].username.value, name(xs[i].level.value)]
  {
    ExportBodyShape(xs, name);
  }

  lemma {:induction false} ExportBodyShape<L>(xs: seq<Student<L>>, name: L -> string)
    requires forall i :: 0 <= i < |xs| ==> Complete(xs[i])
    ensures |ExportBody(xs, name)| == |xs|
    ensures forall i :: 0 <= i < |xs| ==> ExportBody(xs, name)[i] == ExportRow(xs[i], name)
  {
    if xs != [] {
      var init := xs[..|xs| - 1];
      ExportBodyShape(init, name);
      assert forall i :: 0 <= i < |init| ==> init[i] == xs[i];
    }
  }

  /** Round trip: reading back what the export wrote yields the same usernames and levels, in the
      same order, with the ids dropped. */
  lemma ExportThenImport<L(!new)>(xs: seq<Student<L>>, name: L -> string, valueOf: string -> Option<L>)
    requires IsEnum(name, valueOf)
    requires forall i :: 0 <= i < |xs| ==> Complete(xs[i])
    ensures ParseRows(ExportRows(xs, name), valueOf) == Ok(WithoutIds(xs))
  {
    ExportBodyShape(xs, name);
    var body := ExportBody(xs, name);
    assert ExportRows(xs, name)[1..] == body;
    forall i | 0 <= i < |body|
      ensures ParseRow(body[i], valueOf) == Ok(WithoutIds(xs)[i])
    {
      assert valueOf(name(xs[i].level.value)) == Some(xs[i].level.value);
    }
    ParseBodySpec(body, valueOf);
    var parsed := ParseBody(body, valueOf).value;
    assert forall i :: 0 <= i < |body| ==> parsed[i] == WithoutIds(xs)[i];
    assert parsed == WithoutIds(xs);
  }
}
