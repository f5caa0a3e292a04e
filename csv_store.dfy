/** The CSV files both stores live in, as the layer uses them: a file is a
    sequence of lines, the first of which gives a reader with headers the
    field names for every later line, and the layer only ever appends to it. Quoting, escaping and field encoding
    are the CSV library's and are not modelled: a line holds a whole record. */
module CsvStore {

  /** One line of a CSV file: the header, a record that deserialises, or a
      line that does not. */
  datatype Line<R> = Header | Row(record: R) | Malformed

  /** The file starts with the header, or is empty. */
  predicate HeaderFirst<R>(lines: seq<Line<R>>) {
    lines == [] || lines[0].Header?
  }

  /** The records a reader built with `has_headers(true)` yields: one per
      line after the first, whose fields are looked up by the names on the
      first line. Under the header every record is read as it was written;
      under any other first line no field is found and every record fails. */
  function DataLines<R>(lines: seq<Line<R>>): (data: seq<Line<R>>)
    ensures lines != [] ==> |data| == |lines| - 1
    ensures lines == [] ==> data == []
    ensures forall i :: 0 <= i < |data| ==>
      i + 1 < |lines| && data[i] == (if lines[0].Header? then lines[i + 1] else Malformed)
  {
    if lines == [] then []
    else if lines[0].Header? then lines[1..]
    else seq(|lines| - 1, _ => Malformed)
  }

  function Rows<R>(records: seq<R>): (lines: seq<Line<R>>)
    ensures |lines| == |records|
    ensures forall i :: 0 <= i < |records| ==> lines[i] == Row(records[i])
  {
    seq(|records|, i requires 0 <= i < |records| => Row(records[i]))
  }

  /** The file after a writer built with `has_headers(was empty)` has
      serialised `records`: the header goes out with the first record, so
      only when the file was empty and there is at least one record. */
  function Appended<R>(lines: seq<Line<R>>, records: seq<R>): seq<Line<R>> {
    lines + (if lines == [] && records != [] then [Header] else []) + Rows(records)
  }

  /** A file shaped as this layer writes it: empty, or one header followed
      by lines that are not headers. */
  ghost predicate Framed<R>(lines: seq<Line<R>>) {
    lines == [] || (lines[0].Header? && forall i :: 0 < i < |lines| ==> !lines[i].Header?)
  }

  /** Appending leaves every existing line in place, adds exactly the
      records in order, and writes the header exactly when the file was
      empty and there was something to write. A file that starts with the
      header reads back its old records followed by the new ones; any other
      file reads back only failures. */
  lemma AppendedShape<R>(lines: seq<Line<R>>, records: seq<R>)
    ensures |Appended(lines, records)| >= |lines|
    ensures Appended(lines, records)[..|lines|] == lines
    ensures HeaderFirst(lines) ==> DataLines(Appended(lines, records)) == DataLines(lines) + Rows(records)
    ensures !HeaderFirst(lines) ==>
      DataLines(Appended(lines, records)) == DataLines(lines) + seq(|records|, _ => Malformed)
    ensures Framed(lines) ==> Framed(Appended(lines, records))
    ensures (Appended(lines, records) == []) <==> (lines == [] && records == [])
    ensures lines == [] && records != [] ==> Appended(lines, records) == [Header] + Rows(records)
    ensures lines != [] || records == [] ==> Appended(lines, records) == lines + Rows(records)
  {
    var out := Appended(lines, records);
    if lines == [] && records != [] {
      assert out == [Header] + Rows(records);
    } else if lines != [] {
      assert out == lines + Rows(records);
      if lines[0].Header? {
        assert DataLines(out) == lines[1..] + Rows(records);
      } else {
        assert DataLines(out) == DataLines(lines) + seq(|records|, _ => Malformed);
      }
    }
  }

  /** Writing the same records twice appends them twice and the header at
      most once. */
  lemma {:induction false} AppendedTwice<R>(lines: seq<Line<R>>, records: seq<R>)
    ensures Appended(Appended(lines, records), records) == Appended(lines, records) + Rows(records)
    ensures Framed(lines) ==> Framed(Appended(Appended(lines, records), records))
  {
    AppendedShape(lines, records);
    AppendedShape(Appended(lines, records), records);
  }

  /** A file on disk. `present` says whether it is there, `writable` whether
      the file system lets it be opened for appending or created. */
  class CsvFile<R> {
    var present: bool
    const writable: bool
    var lines: seq<Line<R>>

    ghost predicate Valid()
      reads this
    {
      !present ==> lines == []
    }

    constructor (present: bool, writable: bool, lines: seq<Line<R>>)
      requires present || lines == []
      ensures Valid()
      ensures this.present == present && this.writable == writable && this.lines == lines
    {
      this.present := present;
      this.writable := writable;
      this.lines := lines;
    }

    /** `OpenOptions::new().append(true).create(true).open(..)`: fails when
        the file system refuses; otherwise the file exists afterwards,
        with its contents untouched. */
    method OpenAppendCreate() returns (ok: bool)
      requires Valid()
      modifies this`present
      ensures Valid()
      ensures ok == writable
      ensures present == (old(present) || writable)
    {
      ok := writable;
      if ok {
        present := true;
      }
    }

    /** `Writer::serialize` of one record, with the header in front of it
        when the writer still owes one. */
    method Serialize(record: R, withHeader: bool)
      requires Valid() && present
      modifies this`lines
      ensures Valid()
      ensures lines == old(lines) + (if withHeader then [Header] else []) + [Row(record)]
    {
      lines := lines + (if withHeader then [Header] else []) + [Row(record)];
    }
  }
}
