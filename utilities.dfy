/**
 * The CSV serialiser of src/utilities.ts (`convertToCSV`): a header line made
 * of the first record's field names, then one line per record made of its
 * field values, fields joined by "," and lines by "\n", with no quoting.
 */
module Utilities {

  /** A field of a record: its name and its value, already rendered as text. */
  type Field = (string, string)

  /** A record, with its fields in the order `Object.keys` / `Object.values` list them. */
  type Record = seq<Field>

  function Keys(r: Record): seq<string>
  {
    seq(|r|, i requires 0 <= i < |r| => r[i].0)
  }

  function Values(r: Record): seq<string>
  {
    seq(|r|, i requires 0 <= i < |r| => r[i].1)
  }

  /** `Array.prototype.join(sep)` on strings. */
  function Join(parts: seq<string>, sep: string): string
  {
    if |parts| == 0 then ""
    else if |parts| == 1 then parts[0]
    else parts[0] + sep + Join(parts[1..], sep)
  }

  /** Splitting at every occurrence of `c`; the reader's inverse of `Join`. */
  function Split(s: string, c: char): (parts: seq<string>)
    ensures |parts| > 0
  {
    if |s| == 0 then [""]
    else
      var rest := Split(s[1..], c);
      if s[0] == c then [""] + rest else [[s[0]] + rest[0]] + rest[1..]
  }

  function Occurrences(s: string, c: char): nat
  {
    if |s| == 0 then 0 else (if s[0] == c then 1 else 0) + Occurrences(s[1..], c)
  }

  /** No part contains `c`. */
  predicate Free(parts: seq<string>, c: char)
  {
    forall i :: 0 <= i < |parts| ==> c !in parts[i]
  }

  /** No header name and no value contains `c`: the only names printed are the first record's. */
  predicate SafeFor(arr: seq<Record>, c: char)
  {
    && (|arr| > 0 ==> Free(Keys(arr[0]), c))
    && forall i :: 0 <= i < |arr| ==> Free(Values(arr[i]), c)
  }

  function HeaderLine(first: Record): string
  {
    Join(Keys(first), ",")
  }

  function RecordLine(r: Record): string
  {
    Join(Values(r), ",")
  }

  function CsvLines(arr: seq<Record>): seq<string>
    requires |arr| > 0
  {
    [HeaderLine(arr[0])] + seq(|arr|, i requires 0 <= i < |arr| => RecordLine(arr[i]))
  }

  /**
   * `convertToCSV(arr)`. The source reads `arr[0]`, so it needs a non-empty
   * array. Read back line by line, the output is the header and then one line
   * per record, as long as nothing printed contains a newline.
   */
  function ConvertToCSV(arr: seq<Record>): (csv: string)
    requires |arr| > 0
    ensures HeaderLine(arr[0]) <= csv
    ensures SafeFor(arr, '\n') ==>
      var lines := Split(csv, '\n');
      && |lines| == |arr| + 1
      && lines[0] == Join(Keys(arr[0]), ",")
      && (forall i :: 0 <= i < |arr| ==> lines[i + 1] == Join(Values(arr[i]), ","))
    ensures SafeFor(arr, '\n') ==> Occurrences(csv, '\n') == |arr|
  {
    JoinPrefix(CsvLines(arr), "\n");
    CsvLinesReadBack(arr);
    Join(CsvLines(arr), "\n")
  }

  lemma CsvLinesReadBack(arr: seq<Record>)
    requires |arr| > 0
    ensures SafeFor(arr, '\n') ==>
      && Split(Join(CsvLines(arr), "\n"), '\n') == CsvLines(arr)
      && Occurrences(Join(CsvLines(arr), "\n"), '\n') == |arr|
  {
    var lines := CsvLines(arr);
    if SafeFor(arr, '\n') {
      JoinFree(Keys(arr[0]), ",", '\n');
      forall i | 0 <= i < |arr| ensures '\n' !in RecordLine(arr[i]) {
        JoinFree(Values(arr[i]), ",", '\n');
      }
      SplitJoin(lines, '\n');
      SplitCount(Join(lines, "\n"), '\n');
    }
  }

  lemma JoinThree(a: string, b: string, c: string, sep: string)
    ensures Join([a, b, c], sep) == a + sep + b + sep + c
  {
    assert [b, c][1..] == [c];
    assert Join([b, c], sep) == b + sep + c;
    assert [a, b, c][1..] == [b, c];
    assert Join([a, b, c], sep) == a + sep + (b + sep + c);
  }

  /** The first part always opens the joined string. */
  lemma JoinPrefix(parts: seq<string>, sep: string)
    requires |parts| > 0
    ensures parts[0] <= Join(parts, sep)
  {
  }

  /** Joining parts free of `c` with a separator free of `c` gives a string free of `c`. */
  lemma {:induction false} JoinFree(parts: seq<string>, sep: string, c: char)
    requires c !in sep && Free(parts, c)
    ensures c !in Join(parts, sep)
  {
    if |parts| > 1 {
      JoinFree(parts[1..], sep, c);
    }
  }

  /** A string with no `c` splits into itself. */
  lemma {:induction false} SplitFree(p: string, c: char)
    requires c !in p
    ensures Split(p, c) == [p]
  {
    if |p| > 0 {
      SplitFree(p[1..], c);
      assert [p[0]] + p[1..] == p;
    }
  }

  /** Splitting stops at the first `c`. */
  lemma {:induction false} SplitAtFirst(p: string, c: char, t: string)
    requires c !in p
    ensures Split(p + [c] + t, c) == [p] + Split(t, c)
  {
    if |p| == 0 {
      assert ([c] + t)[1..] == t;
      assert p + [c] + t == [c] + t;
    } else {
      SplitAtFirst(p[1..], c, t);
      assert (p + [c] + t)[1..] == p[1..] + [c] + t;
      assert [p[0]] + p[1..] == p;
    }
  }

  /** Round trip: splitting what `Join` produced gives back the parts. */
  lemma {:induction false} SplitJoin(parts: seq<string>, c: char)
    requires |parts| > 0 && Free(parts, c)
    ensures Split(Join(parts, [c]), c) == parts
  {
    if |parts| == 1 {
      SplitFree(parts[0], c);
    } else {
      SplitJoin(parts[1..], c);
      SplitAtFirst(parts[0], c, Join(parts[1..], [c]));
      assert [parts[0]] + parts[1..] == parts;
    }
  }

  /** A string splits into one more part than it has separators. */
  lemma {:induction false} SplitCount(s: string, c: char)
    ensures |Split(s, c)| == Occurrences(s, c) + 1
  {
    if |s| > 0 {
      SplitCount(s[1..], c);
    }
  }

  /**
   * When no name or value contains "," or "\n", every field of every record
   * can be read back from its line: values are printed verbatim.
   */
  lemma FieldsRecoverable(arr: seq<Record>, i: nat)
    requires |arr| > 0 && i < |arr| && |arr[i]| > 0
    requires SafeFor(arr, '\n') && SafeFor(arr, ',')
    ensures Split(Split(ConvertToCSV(arr), '\n')[i + 1], ',') == Values(arr[i])
  {
    SplitJoin(Values(arr[i]), ',');
  }

  /**
   * No escaping: a value `x,y` is printed as is, so the line of a record with
   * that single field reads back as the two fields `x` and `y`.
   */
  lemma CommaIsNotEscaped(name: string, x: string, y: string)
    requires '\n' !in name && '\n' !in x && '\n' !in y
    requires ',' !in x && ',' !in y
    ensures var csv := ConvertToCSV([[(name, x + "," + y)]]);
      && csv == name + "\n" + x + "," + y
      && Split(Split(csv, '\n')[1], ',') == [x, y]
  {
    var v := x + "," + y;
    var arr: seq<Record> := [[(name, v)]];
    assert Keys(arr[0]) == [name] && Values(arr[0]) == [v];
    assert '\n' !in v;
    assert SafeFor(arr, '\n');
    assert CsvLines(arr) == [name, v];
    assert [name, v][1..] == [v];
    assert Join([name, v], "\n") == name + "\n" + v;
    SplitAtFirst(x, ',', y);
    SplitFree(y, ',');
  }
}
