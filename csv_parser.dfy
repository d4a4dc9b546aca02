/**
 * `parse_csv_content` (python_examples/file_io.py): comma separated text with
 * a header line becomes a list of dictionaries keyed by the header names.
 *
 * Choices the docstring leaves open, made here:
 *  - the header is the first line that is not blank; blank lines are those
 *    that are empty after `strip()`, so whitespace-only lines are skipped too;
 *  - a text without any non-blank line parses to the empty list;
 *  - fields are the pieces of `line.split(",")`, each stripped; there is no
 *    quoting.
 * A dictionary is modelled in insertion order (Python 3.7+ dicts keep it).
 */
module CsvParser {
  import opened Wrappers
  import opened Text

  /** One key of a row dictionary with its value; `None` marks a missing field. */
  datatype Entry = Entry(key: string, value: Option<string>)

  /** A Python dict in insertion order. */
  type Row = seq<Entry>

  function Keys(row: Row): seq<string> {
    seq(|row|, i requires 0 <= i < |row| => row[i].key)
  }

  lemma KeysCons(row: Row)
    requires row != []
    ensures Keys(row) == [row[0].key] + Keys(row[1..])
  {
  }

  lemma {:induction false} KeysAppend(a: Row, b: Row)
    ensures Keys(a + b) == Keys(a) + Keys(b)
  {
    assert |Keys(a + b)| == |Keys(a) + Keys(b)|;
    forall i | 0 <= i < |a + b| ensures Keys(a + b)[i] == (Keys(a) + Keys(b))[i] {
      if i >= |a| { assert (a + b)[i] == b[i - |a|]; }
    }
  }

  /** A dictionary has each key once. */
  predicate UniqueKeys(row: Row) {
    Distinct(Keys(row))
  }

  /** `row.get(k)` lifted to an Option, so that a present `None` value is `Some(None)`. */
  function Get(row: Row, k: string): Option<Option<string>> {
    if row == [] then None
    else if row[0].key == k then Some(row[0].value)
    else Get(row[1..], k)
  }

  lemma {:induction false} GetAt(row: Row, i: nat)
    requires UniqueKeys(row) && i < |row|
    ensures Get(row, row[i].key) == Some(row[i].value)
  {
    KeysCons(row);
    DistinctCons(row[0].key, Keys(row[1..]));
    if i > 0 {
      assert row[i] == row[1..][i - 1];
      assert Keys(row[1..])[i - 1] == row[i].key;
      GetAt(row[1..], i - 1);
    }
  }

  /**
   * Python's `row[k] = v`: an existing key keeps its position, a new key
   * goes last; afterwards `k` maps to `v` and every other key keeps its value
   * (PutGet), and a dictionary stays one (PutUnique).
   */
  function Put(row: Row, k: string, v: Option<string>): (r: Row)
    ensures Keys(r) == if k in Keys(row) then Keys(row) else Keys(row) + [k]
  {
    if row == [] then [Entry(k, v)]
    else if row[0].key == k then
      KeysCons(row);
      KeysCons([Entry(k, v)] + row[1..]);
      assert ([Entry(k, v)] + row[1..])[1..] == row[1..];
      [Entry(k, v)] + row[1..]
    else
      var tail := Put(row[1..], k, v);
      KeysCons(row);
      KeysCons([row[0]] + tail);
      assert ([row[0]] + tail)[1..] == tail;
      assert Keys(row) + [k] == [row[0].key] + (Keys(row[1..]) + [k]);
      [row[0]] + tail
  }

  lemma PutUnique(row: Row, k: string, v: Option<string>)
    requires UniqueKeys(row)
    ensures UniqueKeys(Put(row, k, v))
  {
    if k !in Keys(row) {
      DistinctSnoc(Keys(row), k);
    }
  }

  /** After `row[k] = v`, looking up `k` gives `v` and looking up any other key gives what it gave before. */
  lemma {:induction false} PutGet(row: Row, k: string, v: Option<string>, k': string)
    ensures Get(Put(row, k, v), k') == if k' == k then Some(v) else Get(row, k')
  {
    if row != [] && row[0].key != k {
      PutGet(row[1..], k, v, k');
    }
  }

  /** Assigning the pairs one after another, left to right, as `for k, v in pairs: row[k] = v`. */
  function Assign(row: Row, pairs: seq<Entry>): (r: Row)
    ensures |r| >= |row|
    decreases |pairs|
  {
    if pairs == [] then row
    else Assign(Put(row, pairs[0].key, pairs[0].value), pairs[1..])
  }

  lemma {:induction false} AssignUnique(row: Row, pairs: seq<Entry>)
    requires UniqueKeys(row)
    ensures UniqueKeys(Assign(row, pairs))
    decreases |pairs|
  {
    if pairs != [] {
      PutUnique(row, pairs[0].key, pairs[0].value);
      AssignUnique(Put(row, pairs[0].key, pairs[0].value), pairs[1..]);
    }
  }

  /** The keys after the assignments are the old keys and the assigned ones. */
  lemma {:induction false} AssignKeys(row: Row, pairs: seq<Entry>, k: string)
    ensures k in Keys(Assign(row, pairs)) <==> k in Keys(row) || k in Keys(pairs)
    decreases |pairs|
  {
    if pairs != [] {
      assert Keys(pairs) == [pairs[0].key] + Keys(pairs[1..]);
      AssignKeys(Put(row, pairs[0].key, pairs[0].value), pairs[1..], k);
    }
  }

  /** When the assigned keys are new and distinct, the dictionary is the old one followed by the pairs. */
  lemma {:induction false} AssignFresh(row: Row, pairs: seq<Entry>)
    requires Distinct(Keys(row) + Keys(pairs))
    ensures Assign(row, pairs) == row + pairs
    decreases |pairs|
  {
    if pairs == [] {
      assert row + pairs == row;
    } else {
      FreshShift(row, pairs);
      AssignNewKey(row, pairs);
      AssignFresh(row + [pairs[0]], pairs[1..]);
      ConcatSnoc(row, pairs);
    }
  }

  lemma ConcatSnoc(row: Row, pairs: seq<Entry>)
    requires pairs != []
    ensures (row + [pairs[0]]) + pairs[1..] == row + pairs
  {
  }

  /** Assigning a first pair whose key is new appends it. */
  lemma AssignNewKey(row: Row, pairs: seq<Entry>)
    requires pairs != [] && pairs[0].key !in Keys(row)
    ensures Assign(row, pairs) == Assign(row + [pairs[0]], pairs[1..])
  {
    PutNewKey(row, pairs[0].key, pairs[0].value);
  }

  /** Fresh pairs stay fresh once the first of them has been appended. */
  lemma FreshShift(row: Row, pairs: seq<Entry>)
    requires Distinct(Keys(row) + Keys(pairs)) && pairs != []
    ensures pairs[0].key !in Keys(row)
    ensures Distinct(Keys(row + [pairs[0]]) + Keys(pairs[1..]))
  {
    var p := pairs[0];
    var ks := Keys(row) + Keys(pairs);
    assert ks[|row|] == p.key;
    forall i | 0 <= i < |Keys(row)| ensures Keys(row)[i] != p.key {
      assert ks[i] == Keys(row)[i];
    }
    KeysAppend(row, [p]);
    assert Keys(pairs) == [p.key] + Keys(pairs[1..]);
    assert Keys(row + [p]) + Keys(pairs[1..]) == ks;
  }

  lemma {:induction false} PutNewKey(row: Row, k: string, v: Option<string>)
    requires k !in Keys(row)
    ensures Put(row, k, v) == row + [Entry(k, v)]
  {
    if row != [] {
      assert Keys(row)[0] == row[0].key;
      assert k !in Keys(row[1..]) by {
        KeysCons(row);
      }
      PutNewKey(row[1..], k, v);
      assert Put(row, k, v) == [row[0]] + Put(row[1..], k, v);
      assert [row[0]] + (row[1..] + [Entry(k, v)]) == row + [Entry(k, v)];
    }
  }

  /** The character of a decimal digit. */
  function DigitChar(d: nat): char
    requires d < 10
  {
    ('0' as int + d) as char
  }

  predicate IsDigit(c: char) {
    '0' <= c <= '9'
  }

  /** `str(n)` for a natural number. */
  function Decimal(n: nat): (s: string)
    ensures |s| >= 1
    ensures forall i | 0 <= i < |s| :: IsDigit(s[i])
  {
    if n < 10 then [DigitChar(n)] else Decimal(n / 10) + [DigitChar(n % 10)]
  }

  /** `int(s)` for a string of decimal digits. */
  function DecimalValue(s: string): nat
    requires forall i | 0 <= i < |s| :: IsDigit(s[i])
  {
    if s == [] then 0
    else
      assert IsDigit(s[|s| - 1]);
      DecimalValue(s[..|s| - 1]) * 10 + (s[|s| - 1] as int - '0' as int)
  }

  /** Reading back the decimal text of a number gives the number. */
  lemma {:induction false} DecimalRoundTrip(n: nat)
    ensures DecimalValue(Decimal(n)) == n
  {
    if n >= 10 {
      DecimalRoundTrip(n / 10);
      var s := Decimal(n);
      assert s[..|s| - 1] == Decimal(n / 10);
    }
  }

  /** The generated name of the `j`-th surplus field, `f"extra_{j}"`. */
  function ExtraKey(j: nat): string {
    "extra_" + Decimal(j)
  }

  /** Distinct surplus positions get distinct names. */
  lemma ExtraKeyInjective(a: nat, b: nat)
    ensures ExtraKey(a) == ExtraKey(b) <==> a == b
  {
    var p := "extra_";
    assert Decimal(a) == ExtraKey(a)[|p|..];
    assert Decimal(b) == ExtraKey(b)[|p|..];
    DecimalRoundTrip(a);
    DecimalRoundTrip(b);
  }

  /** The assignments for the header columns: a field where the line has one, `None` after its end. */
  function HeaderPairs(header: seq<string>, fields: seq<string>): seq<Entry> {
    seq(|header|, i requires 0 <= i < |header| =>
      Entry(header[i], if i < |fields| then Some(fields[i]) else None))
  }

  /** How many fields the line has beyond the header. */
  function Surplus(header: seq<string>, fields: seq<string>): nat {
    if |fields| > |header| then |fields| - |header| else 0
  }

  /** The assignments for the surplus fields: `extra_1`, `extra_2`, ... in position order. */
  function ExtraPairs(header: seq<string>, fields: seq<string>): seq<Entry> {
    seq(Surplus(header, fields), j requires 0 <= j < Surplus(header, fields) =>
      Entry(ExtraKey(j + 1), Some(fields[|header| + j])))
  }

  /**
   * The row dictionary for one line: header columns first, then the surplus
   * fields. It holds no value that is not one of the line's fields: no
   * coercion, no invented text.
   */
  function MakeRow(header: seq<string>, fields: seq<string>): (r: Row)
    ensures ValuesFrom(r, fields)
  {
    var hp := HeaderPairs(header, fields);
    AssignValues([], hp, fields);
    AssignValues(Assign([], hp), ExtraPairs(header, fields), fields);
    Assign(Assign([], hp), ExtraPairs(header, fields))
  }

  /** A row is a dictionary: no key occurs twice, whatever the header and the line hold. */
  lemma MakeRowUnique(header: seq<string>, fields: seq<string>)
    ensures UniqueKeys(MakeRow(header, fields))
  {
    AssignUnique([], HeaderPairs(header, fields));
    AssignUnique(Assign([], HeaderPairs(header, fields)), ExtraPairs(header, fields));
  }

  /** No header name is one of the generated names this line needs. */
  predicate NoExtraClash(header: seq<string>, fields: seq<string>) {
    forall i, j | 0 <= i < |header| && 1 <= j <= Surplus(header, fields) :: header[i] != ExtraKey(j)
  }

  lemma HeaderPairsKeys(header: seq<string>, fields: seq<string>)
    ensures Keys(HeaderPairs(header, fields)) == header
  {
  }

  /**
   * With distinct header names that do not collide with the generated
   * names, the row holds exactly the header columns in order, each with its
   * field or `None`, followed by `extra_1`, `extra_2`, ... with the surplus
   * fields.
   */
  lemma CleanKeysDistinct(header: seq<string>, fields: seq<string>)
    requires Distinct(header) && NoExtraClash(header, fields)
    ensures Distinct(Keys(HeaderPairs(header, fields)) + Keys(ExtraPairs(header, fields)))
  {
    var hp, ep := HeaderPairs(header, fields), ExtraPairs(header, fields);
    HeaderPairsKeys(header, fields);
    ExtraPairsKeys(header, fields);
    var eks := Keys(ep);
    forall m, l | 0 <= m < l < |eks| ensures eks[m] != eks[l] {
      ExtraKeyInjective(m + 1, l + 1);
    }
    forall i, m | 0 <= i < |header| && 0 <= m < |eks| ensures header[i] != eks[m] {
      assert eks[m] == ExtraKey(m + 1);
    }
    DistinctConcat(header, eks);
  }

  /** The surplus keys are the generated names in order. */
  lemma ExtraPairsKeys(header: seq<string>, fields: seq<string>)
    ensures var ks := Keys(ExtraPairs(header, fields));
      |ks| == Surplus(header, fields) && forall m | 0 <= m < |ks| :: ks[m] == ExtraKey(m + 1)
  {
  }

  lemma MakeRowClean(header: seq<string>, fields: seq<string>)
    requires Distinct(header) && NoExtraClash(header, fields)
    ensures MakeRow(header, fields) == HeaderPairs(header, fields) + ExtraPairs(header, fields)
  {
    var hp, ep := HeaderPairs(header, fields), ExtraPairs(header, fields);
    HeaderPairsKeys(header, fields);
    assert Keys([]) + Keys(hp) == header;
    AssignFresh([], hp);
    assert [] + hp == hp;
    CleanKeysDistinct(header, fields);
    AssignFresh(hp, ep);
  }

  /** Every header name is a key of every row, whatever the line holds. */
  lemma MakeRowHasHeaderKeys(header: seq<string>, fields: seq<string>, i: nat)
    requires i < |header|
    ensures header[i] in Keys(MakeRow(header, fields))
  {
    var hp := HeaderPairs(header, fields);
    HeaderPairsKeys(header, fields);
    AssignKeys([], hp, header[i]);
    AssignKeys(Assign([], hp), ExtraPairs(header, fields), header[i]);
  }

  /** With distinct header names a row has at least as many keys as the header has columns. */
  lemma MakeRowSize(header: seq<string>, fields: seq<string>)
    requires Distinct(header)
    ensures |MakeRow(header, fields)| >= |header|
  {
    var hp := HeaderPairs(header, fields);
    HeaderPairsKeys(header, fields);
    assert Keys([]) + Keys(hp) == header;
    AssignFresh([], hp);
    assert [] + hp == hp;
  }

  /** A row's value for header column `i` under the conditions of MakeRowClean. */
  lemma MakeRowColumn(header: seq<string>, fields: seq<string>, i: nat)
    requires Distinct(header) && NoExtraClash(header, fields)
    requires i < |header|
    ensures Get(MakeRow(header, fields), header[i]) == Some(if i < |fields| then Some(fields[i]) else None)
  {
    MakeRowClean(header, fields);
    MakeRowUnique(header, fields);
    var row := MakeRow(header, fields);
    assert row[i] == HeaderPairs(header, fields)[i];
    GetAt(row, i);
  }

  /**
   * A row's value for the `j`-th surplus field, for every header: the
   * surplus assignments come last, so a repeated header name or a header
   * column that is itself named `extra_j` is overwritten by the field.
   */
  lemma MakeRowExtra(header: seq<string>, fields: seq<string>, j: nat)
    requires 1 <= j <= Surplus(header, fields)
    ensures Get(MakeRow(header, fields), ExtraKey(j)) == Some(Some(fields[|header| + j - 1]))
  {
    var ep := ExtraPairs(header, fields);
    assert ep[j - 1] == Entry(ExtraKey(j), Some(fields[|header| + j - 1]));
    forall l | j - 1 < l < |ep| ensures ep[l].key != ep[j - 1].key {
      ExtraKeyInjective(l + 1, j);
    }
    AssignGetLast(Assign([], HeaderPairs(header, fields)), ep, j - 1);
  }

  /** A header column named `extra_1` is overwritten by the first surplus field. */
  lemma ExampleExtraClash()
    ensures Get(MakeRow(["extra_1"], ["a", "b"]), "extra_1") == Some(Some("b"))
  {
    assert Decimal(1) == "1";
    assert ExtraKey(1) == "extra_1";
    MakeRowExtra(["extra_1"], ["a", "b"], 1);
  }

  /** A key that no pair assigns keeps the value it had. */
  lemma {:induction false} AssignGetOther(row: Row, pairs: seq<Entry>, k: string)
    requires forall l | 0 <= l < |pairs| :: pairs[l].key != k
    ensures Get(Assign(row, pairs), k) == Get(row, k)
    decreases |pairs|
  {
    if pairs != [] {
      PutGet(row, pairs[0].key, pairs[0].value, k);
      AssignGetOther(Put(row, pairs[0].key, pairs[0].value), pairs[1..], k);
    }
  }

  /** The last assignment to a key decides its value. */
  lemma {:induction false} AssignGetLast(row: Row, pairs: seq<Entry>, i: nat)
    requires i < |pairs|
    requires forall l | i < l < |pairs| :: pairs[l].key != pairs[i].key
    ensures Get(Assign(row, pairs), pairs[i].key) == Some(pairs[i].value)
    decreases |pairs|
  {
    var next := Put(row, pairs[0].key, pairs[0].value);
    if i == 0 {
      PutGet(row, pairs[0].key, pairs[0].value, pairs[0].key);
      AssignGetOther(next, pairs[1..], pairs[0].key);
    } else {
      assert pairs[1..][i - 1] == pairs[i];
      AssignGetLast(next, pairs[1..], i - 1);
    }
  }

  /** Every present value of the row is one of `fields`. */
  predicate ValuesFrom(row: Row, fields: seq<string>) {
    forall i | 0 <= i < |row| :: row[i].value.Some? ==> row[i].value.value in fields
  }

  lemma {:induction false} PutValues(row: Row, k: string, v: Option<string>, fields: seq<string>)
    requires ValuesFrom(row, fields)
    requires v.Some? ==> v.value in fields
    ensures ValuesFrom(Put(row, k, v), fields)
  {
    if row != [] {
      if row[0].key != k {
        PutValues(row[1..], k, v, fields);
      }
    }
  }

  lemma {:induction false} AssignValues(row: Row, pairs: seq<Entry>, fields: seq<string>)
    requires ValuesFrom(row, fields) && ValuesFrom(pairs, fields)
    ensures ValuesFrom(Assign(row, pairs), fields)
    decreases |pairs|
  {
    if pairs != [] {
      PutValues(row, pairs[0].key, pairs[0].value, fields);
      AssignValues(Put(row, pairs[0].key, pairs[0].value), pairs[1..], fields);
    }
  }

  /** The stripped comma separated fields of one line. */
  function Fields(line: string): (fs: seq<string>)
    ensures forall k | 0 <= k < |fs| :: IsStripped(fs[k]) && NoneIn(fs[k], {','})
  {
    var parts := Split(line, {','});
    var fs := seq(|parts|, k requires 0 <= k < |parts| => Strip(parts[k]));
    assert forall k | 0 <= k < |fs| :: IsStripped(fs[k]) && NoneIn(fs[k], {','}) by {
      forall k | 0 <= k < |fs| ensures IsStripped(fs[k]) && NoneIn(fs[k], {','}) {
        StripSpec(parts[k]);
        StripKeepsAbsent(parts[k], {','});
      }
    }
    fs
  }

  /** One row per data line, in order. */
  function MakeRows(header: seq<string>, lines: seq<string>): (rows: seq<Row>)
    ensures |rows| == |lines|
    ensures forall i | 0 <= i < |lines| :: rows[i] == MakeRow(header, Fields(lines[i]))
  {
    if lines == [] then [] else [MakeRow(header, Fields(lines[0]))] + MakeRows(header, lines[1..])
  }

  /**
   * `parse_csv_content(content)`: one row per non-blank line after the
   * header, in source order, each built from that line's stripped fields
   * against the header's stripped names.
   */
  function ParseCsv(content: string): (rows: seq<Row>)
    ensures var lines := NonBlank(Lines(content));
      && |rows| == (if lines == [] then 0 else |lines| - 1)
      && forall i | 0 <= i < |rows| :: rows[i] == MakeRow(Fields(lines[0]), Fields(lines[i + 1]))
  {
    var lines := NonBlank(Lines(content));
    if lines == [] then [] else MakeRows(Fields(lines[0]), lines[1..])
  }

  /**
   * Every present value of every parsed row is one of the stripped fields of
   * its own data line, so it is a string with no surrounding whitespace.
   */
  lemma ParseValuesStripped(content: string, i: nat, j: nat)
    requires i < |ParseCsv(content)| && j < |ParseCsv(content)[i]|
    requires ParseCsv(content)[i][j].value.Some?
    ensures var lines := NonBlank(Lines(content));
      && ParseCsv(content)[i][j].value.value in Fields(lines[i + 1])
      && IsStripped(ParseCsv(content)[i][j].value.value)
  {
    var lines := NonBlank(Lines(content));
  }

  /** Every header name is a key of every parsed row. */
  lemma ParseHeaderKeys(content: string, i: nat, k: nat)
    requires i < |ParseCsv(content)|
    ensures var header := Fields(NonBlank(Lines(content))[0]);
      k < |header| ==> header[k] in Keys(ParseCsv(content)[i])
  {
    var lines := NonBlank(Lines(content));
    if k < |Fields(lines[0])| {
      MakeRowHasHeaderKeys(Fields(lines[0]), Fields(lines[i + 1]), k);
    }
  }

  /** Stripped fields without commas, written with commas between them, read back as themselves. */
  lemma FieldsOfRecord(fields: seq<string>)
    requires |fields| >= 1
    requires forall k | 0 <= k < |fields| :: IsStripped(fields[k]) && NoneIn(fields[k], {','})
    ensures Fields(Join(fields, ',')) == fields
  {
    SplitJoin(fields, ',', {','});
    FieldsOfParts(Join(fields, ','), fields);
  }

  lemma FieldsOfParts(line: string, parts: seq<string>)
    requires Split(line, {','}) == parts
    requires forall k | 0 <= k < |parts| :: IsStripped(parts[k])
    ensures Fields(line) == parts
  {
    var fs := Fields(line);
    forall k | 0 <= k < |parts| ensures fs[k] == parts[k] {
      StripStripped(parts[k]);
    }
  }

  /** Each core wrapped in its whitespace padding. */
  function Padded(left: seq<string>, core: seq<string>, right: seq<string>): (pieces: seq<string>)
    requires |left| == |core| == |right|
  {
    seq(|core|, k requires 0 <= k < |core| => left[k] + core[k] + right[k])
  }

  /**
   * Whitespace around the fields of a line is stripped: comma separated
   * pieces made of a stripped core with whitespace on either side read as
   * exactly the cores.
   */
  lemma FieldsOfPadded(left: seq<string>, core: seq<string>, right: seq<string>)
    requires |core| >= 1 && |left| == |core| == |right|
    requires forall k | 0 <= k < |core| :: AllSpace(left[k]) && AllSpace(right[k]) && IsStripped(core[k])
    requires forall k | 0 <= k < |core| :: NoneIn(left[k] + core[k] + right[k], {','})
    ensures Fields(Join(Padded(left, core, right), ',')) == core
  {
    var pieces := Padded(left, core, right);
    var line := Join(pieces, ',');
    SplitJoin(pieces, ',', {','});
    var fs := Fields(line);
    forall k | 0 <= k < |core| ensures fs[k] == core[k] {
      assert Split(line, {','})[k] == left[k] + core[k] + right[k];
      StripUnique(left[k], core[k], right[k]);
    }
  }

  /** A line of two padded fields. */
  lemma FieldsOfPaddedPair(l0: string, c0: string, r0: string, l1: string, c1: string, r1: string, line: string)
    requires AllSpace(l0) && AllSpace(r0) && IsStripped(c0) && NoneIn(l0 + c0 + r0, {','})
    requires AllSpace(l1) && AllSpace(r1) && IsStripped(c1) && NoneIn(l1 + c1 + r1, {','})
    requires line == (l0 + c0 + r0) + [','] + (l1 + c1 + r1)
    ensures Fields(line) == [c0, c1]
  {
    var left, core, right := [l0, l1], [c0, c1], [r0, r1];
    FieldsOfPadded(left, core, right);
    assert Padded(left, core, right) == [l0 + c0 + r0, l1 + c1 + r1];
    JoinTwo(l0 + c0 + r0, l1 + c1 + r1, ',');
  }

  /** A text of two non-blank lines, each of two fields, is a header and one data row. */
  lemma ParseOneRow(text: string, l0: string, l1: string, h0: string, h1: string, v0: string, v1: string)
    requires Lines(text) == [l0, l1] && !IsBlank(l0) && !IsBlank(l1)
    requires Fields(l0) == [h0, h1] && Fields(l1) == [v0, v1] && h0 != h1
    ensures ParseCsv(text) == [[Entry(h0, Some(v0)), Entry(h1, Some(v1))]]
  {
    NonBlankAll([l0, l1]);
    assert [l0, l1][1..] == [l1];
    TwoColumnRow(h0, h1, v0, v1);
  }

  /** A line of two fields under a header of two distinct names. */
  lemma TwoColumnRow(h0: string, h1: string, v0: string, v1: string)
    requires h0 != h1
    ensures MakeRow([h0, h1], [v0, v1]) == [Entry(h0, Some(v0)), Entry(h1, Some(v1))]
  {
    RegularRow([h0, h1], [v0, v1]);
    assert HeaderPairs([h0, h1], [v0, v1]) == [Entry(h0, Some(v0)), Entry(h1, Some(v1))];
  }

  /** Two lines without line breaks joined by "\n" break into exactly those lines. */
  lemma LinesOfPair(l0: string, l1: string, text: string)
    requires NoneIn(l0, LineBreaks) && NoneIn(l1, LineBreaks) && text == l0 + ['\n'] + l1
    ensures Lines(text) == [l0, l1]
  {
    JoinTwo(l0, l1, '\n');
    SplitJoin([l0, l1], '\n', LineBreaks);
  }

  /** A text made of lines joined by "\n" breaks into exactly those lines. */
  lemma LinesOfDocument(lines: seq<string>)
    requires |lines| >= 1
    requires forall k | 0 <= k < |lines| :: NoneIn(lines[k], LineBreaks)
    ensures Lines(Join(lines, '\n')) == lines
  {
    SplitJoin(lines, '\n', LineBreaks);
  }

  /** The comma separated text of a header and data rows, one line each: `"\n".join(",".join(r) for r in [header] + data)`. */
  function Document(header: seq<string>, data: seq<seq<string>>): string {
    Join([Join(header, ',')] + seq(|data|, i requires 0 <= i < |data| => Join(data[i], ',')), '\n')
  }

  /** A field that writes and reads back unchanged: stripped, without commas or line breaks. */
  predicate PlainField(f: string) {
    IsStripped(f) && NoneIn(f, {','} + LineBreaks)
  }

  /** A header and data rows of plain fields, at least one per line, such that no written line is blank. */
  predicate WritableTable(header: seq<string>, data: seq<seq<string>>) {
    && |header| >= 1
    && (forall k | 0 <= k < |header| :: PlainField(header[k]))
    && (forall i | 0 <= i < |data| :: |data[i]| >= 1)
    && (forall i, k | 0 <= i < |data| && 0 <= k < |data[i]| :: PlainField(data[i][k]))
    && !IsBlank(Join(header, ','))
    && (forall i | 0 <= i < |data| :: !IsBlank(Join(data[i], ',')))
  }

  /** A writable table whose header names are distinct and whose rows have one field per column. */
  predicate RegularTable(header: seq<string>, data: seq<seq<string>>) {
    && WritableTable(header, data)
    && Distinct(header)
    && (forall i | 0 <= i < |data| :: |data[i]| == |header|)
  }

  /** The non-blank lines of a writable table's text are its header record and its data records. */
  lemma DocumentLines(header: seq<string>, data: seq<seq<string>>) returns (lines: seq<string>)
    requires WritableTable(header, data)
    ensures lines == [Join(header, ',')] + seq(|data|, i requires 0 <= i < |data| => Join(data[i], ','))
    ensures NonBlank(Lines(Document(header, data))) == lines
  {
    lines := [Join(header, ',')] + seq(|data|, i requires 0 <= i < |data| => Join(data[i], ','));
    forall k | 0 <= k < |lines| ensures NoneIn(lines[k], LineBreaks) {
      if k == 0 {
        JoinNoneIn(header, ',', LineBreaks);
      } else {
        assert lines[k] == Join(data[k - 1], ',');
        JoinNoneIn(data[k - 1], ',', LineBreaks);
      }
    }
    LinesOfDocument(lines);
    NonBlankAll(lines);
  }

  lemma DocumentCount(header: seq<string>, data: seq<seq<string>>)
    requires WritableTable(header, data)
    ensures |ParseCsv(Document(header, data))| == |data|
  {
    var lines := DocumentLines(header, data);
  }

  lemma DocumentRow(header: seq<string>, data: seq<seq<string>>, i: nat)
    requires WritableTable(header, data) && i < |data|
    ensures var rows := ParseCsv(Document(header, data));
      i < |rows| && rows[i] == MakeRow(header, data[i])
  {
    var lines := DocumentLines(header, data);
    FieldsOfRecord(header);
    assert lines[i + 1] == Join(data[i], ',');
    FieldsOfRecord(data[i]);
  }

  /**
   * Parsing a written table gives, for each data row in order, the row
   * dictionary of exactly the fields that were written.
   */
  lemma ParseDocument(header: seq<string>, data: seq<seq<string>>)
    requires WritableTable(header, data)
    ensures ParseCsv(Document(header, data)) == seq(|data|, i requires 0 <= i < |data| => MakeRow(header, data[i]))
  {
    DocumentCount(header, data);
    forall i | 0 <= i < |data|
      ensures i < |ParseCsv(Document(header, data))| && ParseCsv(Document(header, data))[i] == MakeRow(header, data[i])
    {
      DocumentRow(header, data, i);
    }
  }

  /** A row with one plain field per distinct header column becomes exactly the header zipped with its fields. */
  lemma RegularRow(header: seq<string>, fields: seq<string>)
    requires Distinct(header) && |fields| == |header|
    ensures MakeRow(header, fields) == HeaderPairs(header, fields)
    ensures Keys(MakeRow(header, fields)) == header
    ensures forall k | 0 <= k < |header| :: Get(MakeRow(header, fields), header[k]) == Some(Some(fields[k]))
  {
    MakeRowClean(header, fields);
    assert HeaderPairs(header, fields) + ExtraPairs(header, fields) == HeaderPairs(header, fields);
    HeaderPairsKeys(header, fields);
    forall k | 0 <= k < |header| ensures Get(MakeRow(header, fields), header[k]) == Some(Some(fields[k])) {
      MakeRowColumn(header, fields, k);
    }
  }

  /**
   * Round trip: a regular table written out as comma separated lines parses
   * back to one dictionary per data row whose keys are exactly the header
   * names, in order, each holding that row's field: no data is lost and no
   * key is added.
   */
  lemma ParseRoundTrip(header: seq<string>, data: seq<seq<string>>)
    requires RegularTable(header, data)
    ensures ParseCsv(Document(header, data)) == seq(|data|, i requires 0 <= i < |data| => HeaderPairs(header, data[i]))
    ensures forall i | 0 <= i < |data| :: Keys(ParseCsv(Document(header, data))[i]) == header
    ensures forall i, k | 0 <= i < |data| && 0 <= k < |header| ::
      Get(ParseCsv(Document(header, data))[i], header[k]) == Some(Some(data[i][k]))
  {
    ParseDocument(header, data);
    forall i | 0 <= i < |data| ensures MakeRow(header, data[i]) == HeaderPairs(header, data[i])
      ensures Keys(MakeRow(header, data[i])) == header
      ensures forall k | 0 <= k < |header| :: Get(MakeRow(header, data[i]), header[k]) == Some(Some(data[i][k]))
    {
      RegularRow(header, data[i]);
    }
  }

  lemma {:induction false} NonBlankAll(lines: seq<string>)
    requires forall k | 0 <= k < |lines| :: !IsBlank(lines[k])
    ensures NonBlank(lines) == lines
  {
    if lines != [] {
      NonBlankAll(lines[1..]);
    }
  }

  lemma JoinTwo(a: string, b: string, sep: char)
    ensures Join([a, b], sep) == a + [sep] + b
  {
    assert [a, b][1..] == [b];
  }

  lemma JoinThree(a: string, b: string, c: string, sep: char)
    ensures Join([a, b, c], sep) == a + [sep] + b + [sep] + c
  {
    assert [a, b, c][1..] == [b, c];
    JoinTwo(b, c, sep);
  }

  /** The text of a two-column table with two data rows. */
  lemma DocumentTwoByTwo(header: seq<string>, data: seq<seq<string>>)
    requires |header| == 2 && |data| == 2 && |data[0]| == 2 && |data[1]| == 2
    ensures Document(header, data) ==
      Join([header[0] + [','] + header[1], data[0][0] + [','] + data[0][1], data[1][0] + [','] + data[1][1]], '\n')
  {
    JoinTwo(header[0], header[1], ',');
    assert header == [header[0], header[1]];
    JoinTwo(data[0][0], data[0][1], ',');
    assert data[0] == [data[0][0], data[0][1]];
    JoinTwo(data[1][0], data[1][1], ',');
    assert data[1] == [data[1][0], data[1][1]];
    var records := seq(|data|, i requires 0 <= i < |data| => Join(data[i], ','));
    assert records == [Join(data[0], ','), Join(data[1], ',')];
  }

  /** A text spelling out a two-column table with two data rows is that table's document. */
  lemma TwoByTwoText(h0: string, h1: string, a0: string, a1: string, b0: string, b1: string,
                     r0: string, r1: string, r2: string, text: string)
    requires r0 == h0 + [','] + h1 && r1 == a0 + [','] + a1 && r2 == b0 + [','] + b1
    requires text == r0 + ['\n'] + r1 + ['\n'] + r2
    ensures text == Document([h0, h1], [[a0, a1], [b0, b1]])
  {
    DocumentTwoByTwo([h0, h1], [[a0, a1], [b0, b1]]);
    JoinThree(r0, r1, r2, '\n');
  }

  lemma ExampleSimpleFields()
    ensures forall f | f in ["name", "age", "Alice", "30", "Bob", "25"] :: PlainField(f)
  {
  }

  /** A record whose first field is a non-empty plain field is not blank. */
  lemma RecordNotBlank(fields: seq<string>)
    requires |fields| >= 1 && fields[0] != [] && PlainField(fields[0])
    ensures !IsBlank(Join(fields, ','))
  {
    assert Join(fields, ',')[0] == fields[0][0];
  }

  /** A table of plain fields whose every record starts with a non-empty field is writable. */
  lemma WritableByFields(header: seq<string>, data: seq<seq<string>>)
    requires |header| >= 1 && header[0] != []
    requires forall i | 0 <= i < |data| :: |data[i]| >= 1 && data[i][0] != []
    requires forall k | 0 <= k < |header| :: PlainField(header[k])
    requires forall i, k | 0 <= i < |data| && 0 <= k < |data[i]| :: PlainField(data[i][k])
    ensures WritableTable(header, data)
  {
    RecordNotBlank(header);
    forall i | 0 <= i < |data| ensures !IsBlank(Join(data[i], ',')) {
      RecordNotBlank(data[i]);
    }
  }

  lemma ExampleSimpleTable()
    ensures RegularTable(["name", "age"], [["Alice", "30"], ["Bob", "25"]])
  {
    var header, data := ["name", "age"], [["Alice", "30"], ["Bob", "25"]];
    ExampleSimpleFields();
    WritableByFields(header, data);
  }

  lemma ExampleSimpleSpelling()
    ensures "name,age" == "name" + [','] + "age"
    ensures "Alice,30" == "Alice" + [','] + "30"
    ensures "Bob,25" == "Bob" + [','] + "25"
    ensures "name,age\nAlice,30\nBob,25" == "name,age" + ['\n'] + "Alice,30" + ['\n'] + "Bob,25"
  {
  }

  /** The first example of the docstring of `parse_csv_content`. */
  lemma ExampleSimple()
    ensures ParseCsv("name,age\nAlice,30\nBob,25") ==
      [ [Entry("name", Some("Alice")), Entry("age", Some("30"))],
        [Entry("name", Some("Bob")), Entry("age", Some("25"))] ]
  {
    ExampleSimpleTable();
    ExampleSimpleSpelling();
    ParseTwoByTwo("name", "age", "Alice", "30", "Bob", "25", "name,age", "Alice,30", "Bob,25",
      "name,age\nAlice,30\nBob,25");
  }

  lemma ExampleMissingText()
    ensures "id,value\n1,foo\n2" == Document(["id", "value"], [["1", "foo"], ["2"]])
  {
    var header, data := ["id", "value"], [["1", "foo"], ["2"]];
    JoinTwo("id", "value", ',');
    assert "id" + [','] + "value" == "id,value";
    JoinTwo("1", "foo", ',');
    assert "1" + [','] + "foo" == "1,foo";
    assert Join(data[1], ',') == "2";
    var records := seq(|data|, i requires 0 <= i < |data| => Join(data[i], ','));
    assert records == ["1,foo", "2"];
    assert [Join(header, ',')] + records == ["id,value", "1,foo", "2"];
    JoinThree("id,value", "1,foo", "2", '\n');
    assert "id,value" + ['\n'] + "1,foo" + ['\n'] + "2" == "id,value\n1,foo\n2";
  }

  lemma ExampleMissingTable()
    ensures WritableTable(["id", "value"], [["1", "foo"], ["2"]])
  {
    var header, data := ["id", "value"], [["1", "foo"], ["2"]];
    assert forall f | f in ["id", "value", "1", "foo", "2"] :: PlainField(f);
    WritableByFields(header, data);
  }

  lemma ExampleMissingRow(header: seq<string>, fields: seq<string>, row: Row)
    requires header == ["id", "value"]
    requires (fields == ["1", "foo"] && row == [Entry("id", Some("1")), Entry("value", Some("foo"))])
          || (fields == ["2"] && row == [Entry("id", Some("2")), Entry("value", None)])
    ensures MakeRow(header, fields) == row
  {
    assert Surplus(header, fields) == 0 && ExtraPairs(header, fields) == [];
    MakeRowClean(header, fields);
    assert HeaderPairs(header, fields) == row;
  }

  lemma ExampleMissingRows()
    ensures MakeRow(["id", "value"], ["1", "foo"]) == [Entry("id", Some("1")), Entry("value", Some("foo"))]
    ensures MakeRow(["id", "value"], ["2"]) == [Entry("id", Some("2")), Entry("value", None)]
  {
    ExampleMissingRow(["id", "value"], ["1", "foo"], [Entry("id", Some("1")), Entry("value", Some("foo"))]);
    ExampleMissingRow(["id", "value"], ["2"], [Entry("id", Some("2")), Entry("value", None)]);
  }

  /** A writable table with two data rows parses to the rows of its two records. */
  lemma ParseTwoRows(text: string, header: seq<string>, data: seq<seq<string>>, r0: Row, r1: Row)
    requires text == Document(header, data) && WritableTable(header, data) && |data| == 2
    requires MakeRow(header, data[0]) == r0 && MakeRow(header, data[1]) == r1
    ensures ParseCsv(text) == [r0, r1]
  {
    ParseDocument(header, data);
  }

  /** A regular two-column table with two data rows, spelled out, parses to its two rows. */
  lemma ParseTwoByTwo(h0: string, h1: string, a0: string, a1: string, b0: string, b1: string,
                      r0: string, r1: string, r2: string, text: string)
    requires r0 == h0 + [','] + h1 && r1 == a0 + [','] + a1 && r2 == b0 + [','] + b1
    requires text == r0 + ['\n'] + r1 + ['\n'] + r2
    requires WritableTable([h0, h1], [[a0, a1], [b0, b1]]) && h0 != h1
    ensures ParseCsv(text) ==
      [ [Entry(h0, Some(a0)), Entry(h1, Some(a1))],
        [Entry(h0, Some(b0)), Entry(h1, Some(b1))] ]
  {
    var header, data := [h0, h1], [[a0, a1], [b0, b1]];
    TwoByTwoText(h0, h1, a0, a1, b0, b1, r0, r1, r2, text);
    TwoColumnRow(h0, h1, a0, a1);
    TwoColumnRow(h0, h1, b0, b1);
    ParseTwoRows(text, header, data,
      [Entry(h0, Some(a0)), Entry(h1, Some(a1))], [Entry(h0, Some(b0)), Entry(h1, Some(b1))]);
  }

  /** The second example of the docstring: the short row gets `None` for its missing column. */
  lemma ExampleMissing()
    ensures ParseCsv("id,value\n1,foo\n2") ==
      [ [Entry("id", Some("1")), Entry("value", Some("foo"))],
        [Entry("id", Some("2")), Entry("value", None)] ]
  {
    ExampleMissingRows();
    ExampleMissingText();
    ExampleMissingTable();
    ParseTwoRows("id,value\n1,foo\n2", ["id", "value"], [["1", "foo"], ["2"]],
      [Entry("id", Some("1")), Entry("value", Some("foo"))], [Entry("id", Some("2")), Entry("value", None)]);
  }

  lemma ExampleLoadTable()
    ensures WritableTable(["a", "b"], [["1", "2"], ["3", "4"]])
  {
    var header, data := ["a", "b"], [["1", "2"], ["3", "4"]];
    assert forall f | f in ["a", "b", "1", "2", "3", "4"] :: PlainField(f);
    WritableByFields(header, data);
  }

  /** The content of the file the test of `load_csv_file` writes, once read. */
  lemma ExampleLoad()
    ensures ParseCsv("a,b\n1,2\n3,4") ==
      [ [Entry("a", Some("1")), Entry("b", Some("2"))],
        [Entry("a", Some("3")), Entry("b", Some("4"))] ]
  {
    ExampleLoadTable();
    ParseTwoByTwo("a", "b", "1", "2", "3", "4", "a,b", "1,2", "3,4", "a,b\n1,2\n3,4");
  }

  lemma ExamplePaddedLines()
    ensures Lines(" name , age \n Alice , 30 ") == [" name , age ", " Alice , 30 "]
  {
    PrintableHasNoBreaks(" name , age ");
    PrintableHasNoBreaks(" Alice , 30 ");
    LinesOfPair(" name , age ", " Alice , 30 ", " name , age \n Alice , 30 ");
  }

  lemma ExamplePaddedNotBlank()
    ensures !IsBlank(" name , age ") && !IsBlank(" Alice , 30 ")
  {
    assert " name , age "[1] == 'n' && " Alice , 30 "[1] == 'A';
  }

  lemma ExamplePaddedLine(line: string, c0: string, c1: string)
    requires (line == " name , age " && c0 == "name" && c1 == "age")
          || (line == " Alice , 30 " && c0 == "Alice" && c1 == "30")
    ensures Fields(line) == [c0, c1]
  {
    FieldsOfPaddedPair(" ", c0, " ", " ", c1, " ", line);
  }

  /** Spaces around header names and values are stripped before they become keys and values. */
  lemma ExamplePadded()
    ensures ParseCsv(" name , age \n Alice , 30 ") == [[Entry("name", Some("Alice")), Entry("age", Some("30"))]]
  {
    ExamplePaddedLines();
    ExamplePaddedNotBlank();
    ExamplePaddedLine(" name , age ", "name", "age");
    ExamplePaddedLine(" Alice , 30 ", "Alice", "30");
    ParseOneRow(" name , age \n Alice , 30 ", " name , age ", " Alice , 30 ", "name", "age", "Alice", "30");
  }
}
