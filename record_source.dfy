/** The record source of index.go: counting the lines of the CSV file
    (lineCounter), locating the required columns in the header row
    (findIndex), and the rows the CSV reader hands over. */
module RecordSource {

  newtype byte = x: int | 0 <= x < 256

  const Newline: byte := 10

  datatype Option<T> = None | Some(value: T)

  /** One result of csv.Reader.Read: the fields of a row, or a parse error. */
  datatype Row = Fields(cells: seq<string>) | Malformed(reason: string)

  /** A row the reader accepts once the header fixed the field count:
      encoding/csv rejects a record whose number of fields differs from the
      first record's (ErrFieldCount), and the program treats that like any
      other read error. */
  predicate Readable(row: Row, width: nat) {
    row.Fields? && |row.cells| == width
  }

  /** lineCounter: the number of newline bytes in the file contents. */
  function CountNewlines(data: seq<byte>): (n: nat)
    ensures n == multiset(data)[Newline]
    ensures n <= |data|
  {
    if data == [] then 0
    else
      var init := data[..|data| - 1];
      assert data == init + [data[|data| - 1]];
      CountNewlines(init) + (if data[|data| - 1] == Newline then 1 else 0)
  }

  /** A text made of `lines`, each followed by a newline byte. */
  function Terminated(lines: seq<seq<byte>>): seq<byte> {
    if lines == [] then []
    else Terminated(lines[..|lines| - 1]) + lines[|lines| - 1] + [Newline]
  }

  predicate NoNewline(line: seq<byte>) {
    Newline !in line
  }

  /** Newline-terminated lines followed by a last line that may lack its
      newline: the count sees only the terminated ones, so a file whose last
      line has no newline counts one line fewer than it has. */
  lemma {:induction false} CountTerminated(lines: seq<seq<byte>>, last: seq<byte>)
    requires forall i :: 0 <= i < |lines| ==> NoNewline(lines[i])
    requires NoNewline(last)
    ensures CountNewlines(Terminated(lines) + last) == |lines|
    decreases |lines|
  {
    if lines != [] {
      var init := lines[..|lines| - 1];
      CountTerminated(init, []);
      assert Terminated(init) + [] == Terminated(init);
      assert multiset(lines[|lines| - 1])[Newline] == 0;
    }
    assert multiset(last)[Newline] == 0;
  }

  /** The first position of `column` in `headers`, or -1 when no header is
      exactly `column`. */
  function FirstIndex(headers: seq<string>, column: string): (i: int)
    ensures -1 <= i < |headers|
    ensures i == -1 <==> column !in headers
    ensures 0 <= i ==> headers[i] == column && column !in headers[..i]
  {
    if headers == [] then -1
    else if headers[0] == column then 0
    else
      var j := FirstIndex(headers[1..], column);
      if j == -1 then -1 else j + 1
  }

  /** findIndex: a linear search that returns at the first match. */
  method FindIndex(headers: seq<string>, column: string) returns (index: int)
    ensures index == FirstIndex(headers, column)
  {
    for i := 0 to |headers|
      invariant column !in headers[..i]
    {
      if headers[i] == column {
        return i;
      }
    }
    return -1;
  }
}
