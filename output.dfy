/** The text rendering of multiplication tables: one line per entry below
    the precision, "source\t->\t" followed by every target and "+", closed
    by "o\n"; the tables of a resolution one after another with a precision
    that drops by one per degree. */
module Output {
  import opened Sequences
  import opened Tables

  /** output(t, k) + "+" for every name t, in order. */
  function NameList<C, V>(page: Page<C, V>, names: seq<C>, k: int): string
  {
    if names == [] then "" else NameList(page, names[..|names| - 1], k) + page.output(names[|names| - 1], k) + "+"
  }

  /** The line printed for one entry: the direct targets (`second`), and with
      withFirst (output_multiplication_table1) the tag-derived targets
      (`first`) after them. */
  function EntryLine<C, V>(page: Page<C, V>, e: TableEntry<C>, k: int, shift: int, withFirst: bool): string
  {
    page.output(e.originalName, k) + "\t->\t" + NameList(page, e.multipliedNames.second, k + shift)
    + (if withFirst then NameList(page, e.multipliedNames.first, k + shift) else "") + "o\n"
  }

  /** The entries that are printed: source filtration below pric. */
  function Printed<C, V>(page: Page<C, V>, pric: int): TableEntry<C> -> bool
  {
    (t: TableEntry<C>) => page.filtration(t.originalName) < pric
  }

  function LineOf<C, V>(page: Page<C, V>, k: int, shift: int, withFirst: bool): TableEntry<C> -> string
  {
    (t: TableEntry<C>) => EntryLine(page, t, k, shift, withFirst)
  }

  /** The text of one table: the lines of the printed entries, in order. */
  function TableText<C, V>(page: Page<C, V>, mt: seq<TableEntry<C>>, k: int, shift: int, pric: int, withFirst: bool): string
  {
    Flatten(FilterMap(mt, Printed(page, pric), LineOf(page, k, shift, withFirst)))
  }

  /** The text of a sequence of tables: table i at column k = i with
      precision pric - i, concatenated in order. */
  function TablesText<C, V>(page: Page<C, V>, mts: seq<seq<TableEntry<C>>>, shift: int, pric: int, withFirst: bool): string
  {
    Flatten(seq(|mts|, i requires 0 <= i < |mts| => TableText(page, mts[i], i, shift, pric - i, withFirst)))
  }

  /** Writes the targets of `names` after `res`, as both output functions do. */
  method AppendNames<C, V>(res: string, page: Page<C, V>, names: seq<C>, k: int) returns (out: string)
    ensures out == res + NameList(page, names, k)
  {
    out := res;
    for j := 0 to |names|
      invariant out == res + NameList(page, names[..j], k)
    {
      assert names[..j + 1][..j] == names[..j];
      out := out + page.output(names[j], k) + "+";
    }
    assert names[..|names|] == names;
  }

  /** output_multiplication_table (template). */
  method OutputMultiplicationTable<C, V>(mt: seq<TableEntry<C>>, k: int, shift: int, pric: int, tb: Page<C, V>) returns (res: string)
    ensures res == TableText(tb, mt, k, shift, pric, false)
  {
    ghost var printed, line := Printed(tb, pric), LineOf(tb, k, shift, false);
    res := "";
    for i := 0 to |mt|
      invariant res == Flatten(FilterMap(mt[..i], printed, line))
    {
      FilterMapStep(mt, i, printed, line);
      var tm := mt[i];
      if tb.filtration(tm.originalName) >= pric {
        assert FilterMap(mt[..i + 1], printed, line) == FilterMap(mt[..i], printed, line);
        continue;
      }
      assert FilterMap(mt[..i + 1], printed, line) == FilterMap(mt[..i], printed, line) + [line(tm)];
      FlattenPush(FilterMap(mt[..i], printed, line), line(tm));
      ghost var before := res;
      ghost var head, second := tb.output(tm.originalName, k) + "\t->\t", NameList(tb, tm.multipliedNames.second, k + shift);
      res := res + tb.output(tm.originalName, k) + "\t->\t";
      assert res == before + head;
      res := AppendNames(res, tb, tm.multipliedNames.second, k + shift);
      assert res == before + (head + second);
      res := res + "o\n";
      assert res == before + EntryLine(tb, tm, k, shift, false);
    }
    assert mt[..|mt|] == mt;
  }

  /** output_multiplication_table1 (template): the `first` targets follow
      the `second` ones. */
  method OutputMultiplicationTable1<C, V>(mt: seq<TableEntry<C>>, k: int, shift: int, pric: int, tb: Page<C, V>) returns (res: string)
    ensures res == TableText(tb, mt, k, shift, pric, true)
  {
    ghost var printed, line := Printed(tb, pric), LineOf(tb, k, shift, true);
    res := "";
    for i := 0 to |mt|
      invariant res == Flatten(FilterMap(mt[..i], printed, line))
    {
      FilterMapStep(mt, i, printed, line);
      var tm := mt[i];
      if tb.filtration(tm.originalName) >= pric {
        assert FilterMap(mt[..i + 1], printed, line) == FilterMap(mt[..i], printed, line);
        continue;
      }
      assert FilterMap(mt[..i + 1], printed, line) == FilterMap(mt[..i], printed, line) + [line(tm)];
      FlattenPush(FilterMap(mt[..i], printed, line), line(tm));
      ghost var before := res;
      ghost var head, second, first := tb.output(tm.originalName, k) + "\t->\t",
        NameList(tb, tm.multipliedNames.second, k + shift), NameList(tb, tm.multipliedNames.first, k + shift);
      res := res + tb.output(tm.originalName, k) + "\t->\t";
      assert res == before + head;
      res := AppendNames(res, tb, tm.multipliedNames.second, k + shift);
      assert res == before + (head + second);
      res := AppendNames(res, tb, tm.multipliedNames.first, k + shift);
      assert res == before + (head + second + first);
      res := res + "o\n";
      assert res == before + EntryLine(tb, tm, k, shift, true);
    }
    assert mt[..|mt|] == mt;
  }

  /** Appending a table appends its text, at column |mts| and precision
      pric - |mts|. */
  lemma TablesTextStep<C, V>(page: Page<C, V>, mts: seq<seq<TableEntry<C>>>, i: nat, shift: int, pric: int, withFirst: bool)
    requires i < |mts|
    ensures TablesText(page, mts[..i + 1], shift, pric, withFirst)
         == TablesText(page, mts[..i], shift, pric, withFirst) + TableText(page, mts[i], i, shift, pric - i, withFirst)
  {
    var a := seq(i, j requires 0 <= j < i => TableText(page, mts[..i][j], j, shift, pric - j, withFirst));
    var b := seq(i + 1, j requires 0 <= j < i + 1 => TableText(page, mts[..i + 1][j], j, shift, pric - j, withFirst));
    assert b == a + [TableText(page, mts[i], i, shift, pric - i, withFirst)];
    FlattenPush(a, TableText(page, mts[i], i, shift, pric - i, withFirst));
  }

  /** output_multiplication_table (driver): table i with k = i and the
      precision decremented after each table. */
  method OutputMultiplicationTables<C, V>(mts: seq<seq<TableEntry<C>>>, shift: int, pric: int, tb: Page<C, V>) returns (res: string)
    ensures res == TablesText(tb, mts, shift, pric, false)
  {
    res := "";
    var p := pric;
    for i := 0 to |mts|
      invariant p == pric - i
      invariant res == TablesText(tb, mts[..i], shift, pric, false)
    {
      TablesTextStep(tb, mts, i, shift, pric, false);
      var piece := OutputMultiplicationTable(mts[i], i, shift, p, tb);
      p := p - 1;
      res := res + piece;
    }
    assert mts[..|mts|] == mts;
  }

  /** output_multiplication_table1 (driver). */
  method OutputMultiplicationTables1<C, V>(mts: seq<seq<TableEntry<C>>>, shift: int, pric: int, tb: Page<C, V>) returns (res: string)
    ensures res == TablesText(tb, mts, shift, pric, true)
  {
    res := "";
    var p := pric;
    for i := 0 to |mts|
      invariant p == pric - i
      invariant res == TablesText(tb, mts[..i], shift, pric, true)
    {
      TablesTextStep(tb, mts, i, shift, pric, true);
      var piece := OutputMultiplicationTable1(mts[i], i, shift, p, tb);
      p := p - 1;
      res := res + piece;
    }
    assert mts[..|mts|] == mts;
  }

  /** A table's text is one line per entry whose source filtration is below
      pric, in table order: exactly those entries, each with its own line. */
  lemma TableTextLines<C, V>(page: Page<C, V>, mt: seq<TableEntry<C>>, k: int, shift: int, pric: int, withFirst: bool)
    ensures var lines, kept := FilterMap(mt, Printed(page, pric), LineOf(page, k, shift, withFirst)), KeptIndices(mt, Printed(page, pric));
      TableText(page, mt, k, shift, pric, withFirst) == Flatten(lines)
      && |lines| == |kept| && Increasing(kept)
      && (forall j :: 0 <= j < |mt| ==> (j in kept <==> page.filtration(mt[j].originalName) < pric))
      && (forall t :: 0 <= t < |kept| ==> kept[t] < |mt| && lines[t] == EntryLine(page, mt[kept[t]], k, shift, withFirst))
  {
    FilterMapAt(mt, Printed(page, pric), LineOf(page, k, shift, withFirst));
  }

  /** The targets of two lists print as the targets of the first list
      followed by those of the second. */
  lemma {:induction false} NameListAppend<C, V>(page: Page<C, V>, a: seq<C>, b: seq<C>, k: int)
    ensures NameList(page, a + b, k) == NameList(page, a, k) + NameList(page, b, k)
    decreases |b|
  {
    if b == [] {
      assert a + b == a;
    } else {
      var b' := b[..|b| - 1];
      assert (a + b)[..|a + b| - 1] == a + b';
      NameListAppend(page, a, b', k);
    }
  }

  /** Variant 1 prints an entry as variant 0 prints the entry whose direct
      targets are followed by its tag-derived ones: the two lists form one
      continued sum. */
  lemma Variant1Line<C, V>(page: Page<C, V>, e: TableEntry<C>, k: int, shift: int)
    ensures var n := e.multipliedNames;
      EntryLine(page, e, k, shift, true)
      == EntryLine(page, TableEntry(e.originalName, Names(n.first, n.second + n.first)), k, shift, false)
  {
    NameListAppend(page, e.multipliedNames.second, e.multipliedNames.first, k + shift);
  }

  /** When no entry has tag-derived targets, both variants print the same
      text. */
  lemma {:induction false} VariantsAgreeWithoutTagNames<C, V>(page: Page<C, V>, mt: seq<TableEntry<C>>, k: int, shift: int, pric: int)
    requires forall t :: 0 <= t < |mt| ==> mt[t].multipliedNames.first == []
    ensures TableText(page, mt, k, shift, pric, true) == TableText(page, mt, k, shift, pric, false)
    decreases |mt|
  {
    if mt != [] {
      var init := mt[..|mt| - 1];
      VariantsAgreeWithoutTagNames(page, init, k, shift, pric);
      var e := mt[|mt| - 1];
      assert EntryLine(page, e, k, shift, true) == EntryLine(page, e, k, shift, false);
      var l1 := FilterMap(init, Printed(page, pric), LineOf(page, k, shift, true));
      var l0 := FilterMap(init, Printed(page, pric), LineOf(page, k, shift, false));
      assert TableText(page, init, k, shift, pric, true) == Flatten(l1);
      assert TableText(page, init, k, shift, pric, false) == Flatten(l0);
      if page.filtration(e.originalName) < pric {
        assert FilterMap(mt, Printed(page, pric), LineOf(page, k, shift, true)) == l1 + [EntryLine(page, e, k, shift, true)];
        assert FilterMap(mt, Printed(page, pric), LineOf(page, k, shift, false)) == l0 + [EntryLine(page, e, k, shift, false)];
        FlattenPush(l1, EntryLine(page, e, k, shift, true));
        FlattenPush(l0, EntryLine(page, e, k, shift, false));
      } else {
        assert FilterMap(mt, Printed(page, pric), LineOf(page, k, shift, true)) == l1;
        assert FilterMap(mt, Printed(page, pric), LineOf(page, k, shift, false)) == l0;
      }
    }
  }
}
