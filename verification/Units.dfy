/** Parsing the blocks that `systemctl show` prints, one per unit, and sorting the units by name. */
module Units {
  import opened Options
  import opened GoText

  datatype Unit = Unit(
    name: string, description: string, loadState: string, activeState: string, subState: string, unitFileState: string)

  const EMPTY_UNIT: Unit := Unit("", "", "", "", "", "")

  // ---- Lines ----

  /** strings.Split(s, "\n") */
  function Split(s: string): (lines: seq<string>)
    ensures lines != []
  {
    if s == "" then [""]
    else
      var rest := Split(s[1..]);
      if s[0] == '\n' then [""] + rest else [[s[0]] + rest[0]] + rest[1..]
  }

  function JoinLines(lines: seq<string>): string {
    if lines == [] then "" else if |lines| == 1 then lines[0] else lines[0] + "\n" + JoinLines(lines[1..])
  }

  /** strings.Cut(line, "=") */
  function Cut(line: string): Option<(string, string)> {
    if line == "" then None
    else if line[0] == '=' then Some(("", line[1..]))
    else
      match Cut(line[1..])
      case None => None
      case Some((key, value)) => Some(([line[0]] + key, value))
  }

  // ---- The loop of List ----

  /** The switch over the known keys; any other key is ignored. */
  function Assign(unit: Unit, key: string, value: string): Unit {
    if key == "Id" then unit.(name := value)
    else if key == "Description" then unit.(description := value)
    else if key == "LoadState" then unit.(loadState := value)
    else if key == "ActiveState" then unit.(activeState := value)
    else if key == "SubState" then unit.(subState := value)
    else if key == "UnitFileState" then unit.(unitFileState := value)
    else unit
  }

  /** The variables of the loop. */
  datatype Scan = Scan(units: seq<Unit>, current: Unit)

  function Flush(scan: Scan): Scan {
    if scan.current.name != "" then Scan(scan.units + [scan.current], EMPTY_UNIT) else scan
  }

  function ScanLine(scan: Scan, rawLine: string): Scan {
    var line := TrimSpace(rawLine);
    if line == "" then Flush(scan)
    else
      match Cut(line)
      case None => scan
      case Some((key, value)) => scan.(current := Assign(scan.current, key, value))
  }

  function ScanLines(scan: Scan, lines: seq<string>): Scan {
    if lines == [] then scan else ScanLine(ScanLines(scan, lines[..|lines| - 1]), lines[|lines| - 1])
  }

  /** sort.Slice by name; with distinct names every sort gives this. */
  function SortByName(units: seq<Unit>): seq<Unit> {
    if units == [] then [] else Insert(units[0], SortByName(units[1..]))
  }

  function Insert(unit: Unit, sorted: seq<Unit>): seq<Unit> {
    if sorted == [] || !Less(sorted[0].name, unit.name) then [unit] + sorted
    else [sorted[0]] + Insert(unit, sorted[1..])
  }

  /** The units that the loop of List collects from the output of the command, in its order. */
  function Collected(output: string): seq<Unit> {
    Flush(ScanLines(Scan([], EMPTY_UNIT), Split(output))).units
  }

  /** What List returns when all names are different. */
  function Parse(output: string): seq<Unit> {
    SortByName(Collected(output))
  }

  /** sort.Slice by name. It is not stable: nothing is promised on the order of equal names. */
  method SortSlice(units: seq<Unit>) returns (sorted: seq<Unit>)
    ensures multiset(sorted) == multiset(units) && Sorted(sorted)
  {
    SortPermutes(units);
    SortIsSorted(units);
    sorted := SortByName(units);
  }

  /** The units found, sorted by name; no unit lacks a name. */
  method List(output: string) returns (units: seq<Unit>)
    ensures multiset(units) == multiset(Collected(output)) && Sorted(units)
    ensures DistinctNames(Collected(output)) ==> units == Parse(output)
    ensures forall i :: 0 <= i < |units| ==> units[i].name != ""
  {
    units := [];
    var current := EMPTY_UNIT;
    var lines := Split(output);
    var i := 0;
    while i < |lines|
      invariant 0 <= i <= |lines|
      invariant Scan(units, current) == ScanLines(Scan([], EMPTY_UNIT), lines[..i])
      invariant forall k :: 0 <= k < |units| ==> units[k].name != ""
    {
      assert lines[..i + 1][..i] == lines[..i];
      var line := TrimSpace(lines[i]);
      i := i + 1;
      if line == "" {
        if current.name != "" {
          units := units + [current];
          current := EMPTY_UNIT;
        }
        continue;
      }
      var cut := Cut(line);
      if cut.Some? {
        current := Assign(current, cut.value.0, cut.value.1);
      }
    }
    assert lines[..i] == lines;
    if current.name != "" {
      units := units + [current];
    }
    assert units == Collected(output);
    ghost var found := units;
    units := SortSlice(units);
    NamesKept(found, units);
    SortPermutes(found);
    SortIsSorted(found);
    if DistinctNames(found) {
      SortDistinct(found);
      SortedUnique(SortByName(found), units);
    }
  }

  // ---- Sorting ----

  predicate Sorted(units: seq<Unit>) {
    forall i, j :: 0 <= i < j < |units| ==> !Less(units[j].name, units[i].name)
  }

  predicate DistinctNames(units: seq<Unit>) {
    forall i, j :: 0 <= i < j < |units| ==> units[i].name != units[j].name
  }

  lemma {:induction false} InsertPermutes(unit: Unit, sorted: seq<Unit>)
    ensures multiset(Insert(unit, sorted)) == multiset{unit} + multiset(sorted)
  {
    if sorted != [] && Less(sorted[0].name, unit.name) {
      InsertPermutes(unit, sorted[1..]);
      assert sorted == [sorted[0]] + sorted[1..];
    }
  }

  lemma {:induction false} SortPermutes(units: seq<Unit>)
    ensures multiset(SortByName(units)) == multiset(units)
  {
    if units != [] {
      SortPermutes(units[1..]);
      InsertPermutes(units[0], SortByName(units[1..]));
      assert units == [units[0]] + units[1..];
    }
  }

  lemma NotLessTransitive(a: string, b: string, c: string)
    requires !Less(b, a) && !Less(c, b)
    ensures !Less(c, a)
  {
  }

  lemma {:induction false} InsertSorted(unit: Unit, sorted: seq<Unit>)
    requires Sorted(sorted)
    ensures Sorted(Insert(unit, sorted))
  {
    var r := Insert(unit, sorted);
    if sorted == [] {
    } else if !Less(sorted[0].name, unit.name) {
      forall j | 1 <= j < |r|
        ensures !Less(r[j].name, unit.name)
      {
        LessTotal(sorted[0].name, sorted[0].name);
        NotLessTransitive(unit.name, sorted[0].name, r[j].name);
      }
    } else {
      InsertSorted(unit, sorted[1..]);
      InsertPermutes(unit, sorted[1..]);
      LessTotal(sorted[0].name, unit.name);
      forall j | 1 <= j < |r|
        ensures !Less(r[j].name, r[0].name)
      {
        assert r[j] == Insert(unit, sorted[1..])[j - 1];
        assert r[j] in multiset(Insert(unit, sorted[1..]));
        assert r[j] == unit || r[j] in sorted[1..];
      }
    }
  }

  lemma {:induction false} SortIsSorted(units: seq<Unit>)
    ensures Sorted(SortByName(units))
  {
    if units != [] {
      SortIsSorted(units[1..]);
      InsertSorted(units[0], SortByName(units[1..]));
    }
  }

  lemma NamesKept(units: seq<Unit>, sorted: seq<Unit>)
    requires multiset(sorted) == multiset(units) && forall i :: 0 <= i < |units| ==> units[i].name != ""
    ensures forall i :: 0 <= i < |sorted| ==> sorted[i].name != ""
  {
    forall i | 0 <= i < |sorted|
      ensures sorted[i].name != ""
    {
      assert sorted[i] in multiset(units);
    }
  }

  lemma {:induction false} InsertDistinct(unit: Unit, sorted: seq<Unit>)
    requires DistinctNames(sorted) && forall i :: 0 <= i < |sorted| ==> sorted[i].name != unit.name
    ensures DistinctNames(Insert(unit, sorted))
  {
    if sorted != [] && Less(sorted[0].name, unit.name) {
      var r := Insert(unit, sorted[1..]);
      InsertDistinct(unit, sorted[1..]);
      InsertPermutes(unit, sorted[1..]);
      forall j | 0 <= j < |r|
        ensures r[j].name != sorted[0].name
      {
        assert r[j] in multiset(r);
        assert r[j] == unit || r[j] in sorted[1..];
      }
    }
  }

  lemma {:induction false} SortDistinct(units: seq<Unit>)
    requires DistinctNames(units)
    ensures DistinctNames(SortByName(units))
  {
    if units != [] {
      var rest := SortByName(units[1..]);
      SortDistinct(units[1..]);
      SortPermutes(units[1..]);
      forall j | 0 <= j < |rest|
        ensures rest[j].name != units[0].name
      {
        assert rest[j] in multiset(units[1..]);
      }
      InsertDistinct(units[0], rest);
    }
  }

  lemma SortedHead(a: seq<Unit>, b: seq<Unit>)
    requires Sorted(a) && Sorted(b) && multiset(a) == multiset(b) && DistinctNames(a) && a != [] && b != []
    ensures a[0] == b[0]
  {
    assert a[0] in multiset(b) && b[0] in multiset(a);
    var i :| 0 <= i < |b| && b[i] == a[0];
    var j :| 0 <= j < |a| && a[j] == b[0];
    LessTotal(a[0].name, b[0].name);
  }

  lemma TailMultiset(s: seq<Unit>)
    requires s != []
    ensures multiset(s[1..]) == multiset(s) - multiset{s[0]}
  {
    assert s == [s[0]] + s[1..];
  }

  /** Two sorted lists of the same units are equal when the names are distinct, so it does not matter
      that the library sort is not stable. */
  lemma {:induction false} SortedUnique(a: seq<Unit>, b: seq<Unit>)
    requires Sorted(a) && Sorted(b) && multiset(a) == multiset(b) && DistinctNames(a)
    ensures a == b
    decreases |a|
  {
    assert |multiset(a)| == |a| && |multiset(b)| == |b|;
    if a != [] {
      SortedHead(a, b);
      TailMultiset(a);
      TailMultiset(b);
      assert Sorted(a[1..]) && Sorted(b[1..]) && DistinctNames(a[1..]);
      SortedUnique(a[1..], b[1..]);
      assert a == [a[0]] + a[1..] && b == [b[0]] + b[1..];
    }
  }

  // ---- The printer ----

  datatype Key = Id | Description | LoadState | ActiveState | SubState | UnitFileState

  function KeyName(k: Key): string {
    match k
    case Id => "Id"
    case Description => "Description"
    case LoadState => "LoadState"
    case ActiveState => "ActiveState"
    case SubState => "SubState"
    case UnitFileState => "UnitFileState"
  }

  function FieldOf(unit: Unit, k: Key): string {
    match k
    case Id => unit.name
    case Description => unit.description
    case LoadState => unit.loadState
    case ActiveState => unit.activeState
    case SubState => unit.subState
    case UnitFileState => unit.unitFileState
  }

  /** A value that survives on one line: no newline in it, no white space at its end. */
  predicate OneLine(s: string) {
    '\n' !in s && (s == "" || !IsSpace(s[|s| - 1]))
  }

  /** A unit as it is printed: the order of its keys, and the number of blank lines after it. Keys of
      empty fields may be left out, and a key may be printed twice. */
  datatype Block = Block(unit: Unit, keys: seq<Key>, gap: nat)

  predicate Printable(block: Block) {
    && block.unit.name != "" && Id in block.keys
    && (forall k :: OneLine(FieldOf(block.unit, k)))
    && (forall k :: k !in block.keys ==> FieldOf(block.unit, k) == "")
  }

  function KeyLine(unit: Unit, k: Key): string {
    KeyName(k) + "=" + FieldOf(unit, k)
  }

  function KeyLines(unit: Unit, keys: seq<Key>): seq<string> {
    if keys == [] then [] else KeyLines(unit, keys[..|keys| - 1]) + [KeyLine(unit, keys[|keys| - 1])]
  }

  function Blanks(n: nat): seq<string> {
    if n == 0 then [] else Blanks(n - 1) + [""]
  }

  /** The lines of all blocks. */
  function BlockLines(blocks: seq<Block>): seq<string> {
    if blocks == [] then []
    else
      var last := blocks[|blocks| - 1];
      BlockLines(blocks[..|blocks| - 1]) + KeyLines(last.unit, last.keys) + Blanks(last.gap)
  }

  function UnitsOf(blocks: seq<Block>): seq<Unit> {
    if blocks == [] then [] else UnitsOf(blocks[..|blocks| - 1]) + [blocks[|blocks| - 1].unit]
  }

  /** Every block is printable and, except perhaps the last, followed by a blank line. */
  predicate PrintableAll(blocks: seq<Block>) {
    && (forall i :: 0 <= i < |blocks| ==> Printable(blocks[i]))
    && (forall i :: 0 <= i < |blocks| - 1 ==> blocks[i].gap >= 1)
  }

  // ---- Parsing undoes printing ----

  lemma {:induction false} SplitLine(line: string, rest: string)
    requires '\n' !in line
    ensures Split(line + "\n" + rest) == [line] + Split(rest)
  {
    if line == "" {
      assert line + "\n" + rest == "\n" + rest;
      assert ("\n" + rest)[1..] == rest;
    } else {
      SplitLine(line[1..], rest);
      assert (line + "\n" + rest)[1..] == line[1..] + "\n" + rest;
      assert [line[0]] + line[1..] == line;
    }
  }

  lemma {:induction false} SplitWord(line: string)
    requires '\n' !in line
    ensures Split(line) == [line]
  {
    if line != "" {
      SplitWord(line[1..]);
      assert [line[0]] + line[1..] == line;
    }
  }

  lemma {:induction false} SplitJoin(lines: seq<string>)
    requires lines != [] && forall i :: 0 <= i < |lines| ==> '\n' !in lines[i]
    ensures Split(JoinLines(lines)) == lines
  {
    if |lines| == 1 {
      SplitWord(lines[0]);
    } else {
      SplitJoin(lines[1..]);
      SplitLine(lines[0], JoinLines(lines[1..]));
      assert lines == [lines[0]] + lines[1..];
    }
  }

  /** Splitting loses nothing: the lines hold no newline, and joined they are the text. */
  lemma {:induction false} SplitMeans(s: string)
    ensures forall i :: 0 <= i < |Split(s)| ==> '\n' !in Split(s)[i]
    ensures JoinLines(Split(s)) == s
  {
    if s != "" {
      SplitMeans(s[1..]);
      var rest := Split(s[1..]);
      assert s == [s[0]] + s[1..];
      if s[0] == '\n' {
        assert ([""] + rest)[1..] == rest;
      } else {
        var lines := [[s[0]] + rest[0]] + rest[1..];
        assert lines[1..] == rest[1..];
        if |rest| > 1 {
          assert lines[0] + "\n" + JoinLines(rest[1..]) == [s[0]] + (rest[0] + "\n" + JoinLines(rest[1..]));
        }
      }
    }
  }

  /** A line is cut at its first '=', if it has one. */
  lemma {:induction false} CutMeans(line: string)
    ensures Cut(line) == None <==> '=' !in line
    ensures Cut(line).Some? ==> Cut(line).value.0 + "=" + Cut(line).value.1 == line && '=' !in Cut(line).value.0
  {
    if line != "" && line[0] != '=' {
      CutMeans(line[1..]);
      assert line == [line[0]] + line[1..];
    }
  }

  /** A key that is none of the six. */
  predicate UnknownKey(key: string) {
    key !in {"Id", "Description", "LoadState", "ActiveState", "SubState", "UnitFileState"}
  }

  /** A line that is not blank and has no '=', or an unknown key before it, changes nothing. */
  lemma OtherLinesIgnored(scan: Scan, line: string)
    requires TrimSpace(line) != ""
    requires Cut(TrimSpace(line)).Some? ==> UnknownKey(Cut(TrimSpace(line)).value.0)
    ensures ScanLine(scan, line) == scan
  {
  }

  lemma {:induction false} CutFirstEquals(key: string, value: string)
    requires '=' !in key
    ensures Cut(key + "=" + value) == Some((key, value))
  {
    var line := key + "=" + value;
    if key == "" {
      assert line == "=" + value;
    } else {
      CutFirstEquals(key[1..], value);
      assert line[1..] == key[1..] + "=" + value;
      assert [key[0]] + key[1..] == key;
    }
  }

  lemma KeyNamePlain(k: Key)
    ensures KeyName(k) != "" && '=' !in KeyName(k) && '\n' !in KeyName(k) && !IsSpace(KeyName(k)[0])
  {
  }

  /** A printed line is read as the assignment it was printed for, even when the value contains '='. */
  lemma KeyLineAssigns(scan: Scan, unit: Unit, k: Key)
    requires OneLine(FieldOf(unit, k))
    ensures ScanLine(scan, KeyLine(unit, k)) == scan.(current := Assign(scan.current, KeyName(k), FieldOf(unit, k)))
    ensures '\n' !in KeyLine(unit, k)
  {
    var line := KeyLine(unit, k);
    KeyNamePlain(k);
    assert line[0] == KeyName(k)[0];
    assert line[|line| - 1] == if FieldOf(unit, k) == "" then '=' else FieldOf(unit, k)[|FieldOf(unit, k)| - 1];
    TrimSpaceFixes(line);
    CutFirstEquals(KeyName(k), FieldOf(unit, k));
  }

  lemma {:induction false} ScanConcat(scan: Scan, a: seq<string>, b: seq<string>)
    ensures ScanLines(scan, a + b) == ScanLines(ScanLines(scan, a), b)
    decreases |b|
  {
    if b == [] {
      assert a + b == a;
    } else {
      ScanConcat(scan, a, b[..|b| - 1]);
      assert (a + b)[..|a + b| - 1] == a + b[..|b| - 1];
    }
  }

  /** The unit with only the fields of the given keys. */
  function Partial(unit: Unit, keys: seq<Key>): Unit {
    Unit(if Id in keys then unit.name else "",
         if Description in keys then unit.description else "",
         if LoadState in keys then unit.loadState else "",
         if ActiveState in keys then unit.activeState else "",
         if SubState in keys then unit.subState else "",
         if UnitFileState in keys then unit.unitFileState else "")
  }

  lemma AssignPartial(unit: Unit, keys: seq<Key>, k: Key)
    ensures Assign(Partial(unit, keys), KeyName(k), FieldOf(unit, k)) == Partial(unit, keys + [k])
  {
    hide Assign, KeyName;
    assert forall j :: j in keys + [k] <==> j in keys || j == k;
    AssignByKey(Partial(unit, keys), k, FieldOf(unit, k));
  }

  /** The switch sets the field that the key names. */
  lemma AssignByKey(unit: Unit, k: Key, value: string)
    ensures Assign(unit, KeyName(k), value) ==
      match k
      case Id => unit.(name := value)
      case Description => unit.(description := value)
      case LoadState => unit.(loadState := value)
      case ActiveState => unit.(activeState := value)
      case SubState => unit.(subState := value)
      case UnitFileState => unit.(unitFileState := value)
  {
  }

  lemma KeyLinesSnoc(unit: Unit, keys: seq<Key>)
    requires keys != []
    ensures |KeyLines(unit, keys)| == |keys|
    ensures KeyLines(unit, keys)[..|keys| - 1] == KeyLines(unit, keys[..|keys| - 1])
    ensures KeyLines(unit, keys)[|keys| - 1] == KeyLine(unit, keys[|keys| - 1])
  {
  }

  lemma {:induction false} KeyLinesLength(unit: Unit, keys: seq<Key>)
    ensures |KeyLines(unit, keys)| == |keys|
  {
    if keys != [] {
      KeyLinesLength(unit, keys[..|keys| - 1]);
    }
  }

  lemma {:induction false} ScanKeys(units: seq<Unit>, unit: Unit, keys: seq<Key>)
    requires forall k :: OneLine(FieldOf(unit, k))
    ensures ScanLines(Scan(units, EMPTY_UNIT), KeyLines(unit, keys)) == Scan(units, Partial(unit, keys))
  {
    hide ScanLine, KeyLine, Assign, OneLine;
    if keys != [] {
      var init, k := keys[..|keys| - 1], keys[|keys| - 1];
      ScanKeys(units, unit, init);
      KeyLinesSnoc(unit, keys);
      KeyLineAssigns(Scan(units, Partial(unit, init)), unit, k);
      AssignPartial(unit, init, k);
      assert keys == init + [k];
    }
  }

  lemma {:induction false} KeyLinesPlain(unit: Unit, keys: seq<Key>)
    requires forall k :: OneLine(FieldOf(unit, k))
    ensures forall i :: 0 <= i < |KeyLines(unit, keys)| ==> '\n' !in KeyLines(unit, keys)[i]
  {
    if keys != [] {
      KeyLinesPlain(unit, keys[..|keys| - 1]);
      KeyLineAssigns(Scan([], EMPTY_UNIT), unit, keys[|keys| - 1]);
    }
  }

  lemma PartialIsAll(block: Block)
    requires Printable(block)
    ensures Partial(block.unit, block.keys) == block.unit
  {
  }

  lemma {:induction false} ScanBlanks(scan: Scan, n: nat)
    ensures ScanLines(scan, Blanks(n)) == if n == 0 then scan else Flush(scan)
    ensures forall i :: 0 <= i < |Blanks(n)| ==> Blanks(n)[i] == ""
  {
    if n > 0 {
      ScanBlanks(scan, n - 1);
      assert Blanks(n)[..|Blanks(n)| - 1] == Blanks(n - 1);
    }
  }

  /** After a block its unit is current, and a blank line has appended it if there was one. */
  lemma ScanBlock(units: seq<Unit>, block: Block)
    requires Printable(block)
    ensures var scan := ScanLines(Scan(units, EMPTY_UNIT), KeyLines(block.unit, block.keys) + Blanks(block.gap));
      && Flush(scan) == Scan(units + [block.unit], EMPTY_UNIT)
      && (block.gap >= 1 ==> scan == Scan(units + [block.unit], EMPTY_UNIT))
  {
    ScanKeys(units, block.unit, block.keys);
    PartialIsAll(block);
    ScanConcat(Scan(units, EMPTY_UNIT), KeyLines(block.unit, block.keys), Blanks(block.gap));
    ScanBlanks(Scan(units, block.unit), block.gap);
  }

  lemma BlockLinesSnoc(blocks: seq<Block>)
    requires blocks != []
    ensures var last := blocks[|blocks| - 1];
      BlockLines(blocks) == BlockLines(blocks[..|blocks| - 1]) + (KeyLines(last.unit, last.keys) + Blanks(last.gap))
  {
  }

  lemma {:induction false} ScanBlocks(blocks: seq<Block>)
    requires PrintableAll(blocks)
    ensures Flush(ScanLines(Scan([], EMPTY_UNIT), BlockLines(blocks))) == Scan(UnitsOf(blocks), EMPTY_UNIT)
    ensures (blocks == [] || blocks[|blocks| - 1].gap >= 1) ==>
      ScanLines(Scan([], EMPTY_UNIT), BlockLines(blocks)) == Scan(UnitsOf(blocks), EMPTY_UNIT)
  {
    hide ScanLine, Printable, KeyLines, Blanks;
    if blocks != [] {
      var init, last := blocks[..|blocks| - 1], blocks[|blocks| - 1];
      assert init != [] ==> init[|init| - 1] == blocks[|init| - 1];
      ScanBlocks(init);
      BlockLinesSnoc(blocks);
      ScanConcat(Scan([], EMPTY_UNIT), BlockLines(init), KeyLines(last.unit, last.keys) + Blanks(last.gap));
      ScanBlock(UnitsOf(init), last);
    }
  }

  lemma {:induction false} BlockLinesPlain(blocks: seq<Block>)
    requires PrintableAll(blocks)
    ensures forall i :: 0 <= i < |BlockLines(blocks)| ==> '\n' !in BlockLines(blocks)[i]
  {
    if blocks != [] {
      var last := blocks[|blocks| - 1];
      BlockLinesPlain(blocks[..|blocks| - 1]);
      KeyLinesPlain(last.unit, last.keys);
      ScanBlanks(Scan([], EMPTY_UNIT), last.gap);
    }
  }

  /** For any units with non-empty names and one-line fields, printed in any order of their keys with
      blank lines between the blocks, the loop of List collects exactly those units, and the sort orders
      them by name. */
  lemma ParseUndoesPrint(blocks: seq<Block>)
    requires PrintableAll(blocks)
    ensures Collected(JoinLines(BlockLines(blocks))) == UnitsOf(blocks)
    ensures Parse(JoinLines(BlockLines(blocks))) == SortByName(UnitsOf(blocks))
    ensures multiset(Parse(JoinLines(BlockLines(blocks)))) == multiset(UnitsOf(blocks))
    ensures Sorted(Parse(JoinLines(BlockLines(blocks))))
  {
    if blocks != [] {
      BlockLinesPlain(blocks);
      KeyLinesLength(blocks[|blocks| - 1].unit, blocks[|blocks| - 1].keys);
      SplitJoin(BlockLines(blocks));
      ScanBlocks(blocks);
    } else {
      assert Split("") == [""] && TrimSpace("") == "";
    }
    SortPermutes(UnitsOf(blocks));
    SortIsSorted(UnitsOf(blocks));
  }
}
