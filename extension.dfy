/** The multiplication-extension engine: which page entries become lines of
    a multiplication table, keyed by which cycle, named through which
    operations, with which precision, in which order. */
module Extension {
  import opened Z3Ring
  import opened Sequences
  import opened Tables
  import opened Matrices

  // ---------------------------------------------------------------------
  // Selection rules and images of the two passes
  // ---------------------------------------------------------------------

  /** Pass 1 of mult_extension and three_extension: valid, untagged entries. */
  function ValidUntagged<C, V>(cur: Page<C, V>): PageEntry<C, V> -> bool
  {
    (e: PageEntry<C, V>) => cur.valid(e.cycle) && !cur.tagged(e)
  }

  /** Pass 1 of mult_extension1: valid, untagged, below the precision. */
  function ValidUntaggedBelow<C, V>(cur: Page<C, V>, pric: int): PageEntry<C, V> -> bool
  {
    (e: PageEntry<C, V>) => cur.valid(e.cycle) && !cur.tagged(e) && cur.filtration(e.cycle) < pric
  }

  /** Pass 2 of mult_extension: valid, tagged entries of the next page whose
      own filtration is NOT below the precision. */
  function TaggedAtLeast<C, V>(next: Page<C, V>, pric: int): PageEntry<C, V> -> bool
  {
    (e: PageEntry<C, V>) => next.valid(e.cycle) && next.tagged(e) && next.filtration(e.cycle) >= pric
  }

  /** Pass 2 of mult_extension1: valid, tagged entries of the next page whose
      tag has filtration below the precision on the CURRENT page. */
  function TaggedBelowOnCurrent<C, V>(cur: Page<C, V>, next: Page<C, V>, pric: int): PageEntry<C, V> -> bool
  {
    (e: PageEntry<C, V>) => next.valid(e.cycle) && next.tagged(e) && cur.filtration(e.tag) < pric
  }

  /** The line for a pass-1 entry: keyed by its cycle, named on the next page
      from the image of its full cycle. */
  function CycleImage<C, V, I, R>(ops: Ops<C, V, I, R>, m: seq<R>, next: Page<C, V>, third: Page<C, V>, pric: int, flag: bool)
    : PageEntry<C, V> -> TableEntry<C>
  {
    (e: PageEntry<C, V>) => TableEntry(e.cycle, ops.combineCycles(next, ops.nameOfCycle(next, ops.mapsTo(m, e.fullCycle), third, pric, flag)))
  }

  /** The line for a pass-2 entry: keyed by its tag, named on the next page
      from the image of its full tag. */
  function TagImage<C, V, I, R>(ops: Ops<C, V, I, R>, m: seq<R>, next: Page<C, V>, third: Page<C, V>, pric: int, flag: bool)
    : PageEntry<C, V> -> TableEntry<C>
  {
    (e: PageEntry<C, V>) => TableEntry(e.tag, ops.combineCycles(next, ops.nameOfCycle(next, ops.mapsTo(m, e.fullTag), third, pric, flag)))
  }

  /** The line for three_extension: keyed by the cycle, named on the same
      page from 3 times its full cycle. */
  function ThreeImage<C, V, I, R>(ops: Ops<C, V, I, R>, cur: Page<C, V>, pric: int): PageEntry<C, V> -> TableEntry<C>
  {
    (e: PageEntry<C, V>) => TableEntry(e.cycle, ops.nameOnPage(cur, ops.scalarMult(cur, Unit(3), e.fullCycle), pric))
  }

  // ---------------------------------------------------------------------
  // The tables the engine builds
  // ---------------------------------------------------------------------

  /** Pass 1 of mult_extension: one line per valid untagged entry of the
      current page, named with the three-argument name_of_cycle. */
  function ExtensionFirstPass<C, V, I, R>(ops: Ops<C, V, I, R>, m: seq<R>, cur: Page<C, V>, next: Page<C, V>, third: Page<C, V>, pric: int)
    : seq<TableEntry<C>>
  {
    FilterMap(cur.entries, ValidUntagged(cur), CycleImage(ops, m, next, third, pric, ops.defaultFlag))
  }

  /** Pass 2 of mult_extension: one line per valid tagged entry of the next
      page with filtration at least pric. */
  function ExtensionSecondPass<C, V, I, R>(ops: Ops<C, V, I, R>, m: seq<R>, next: Page<C, V>, third: Page<C, V>, pric: int)
    : seq<TableEntry<C>>
  {
    FilterMap(next.entries, TaggedAtLeast(next, pric), TagImage(ops, m, next, third, pric, ops.defaultFlag))
  }

  /** mult_extension: all pass-1 lines, then all pass-2 lines. */
  function ExtensionTable<C, V, I, R>(ops: Ops<C, V, I, R>, m: seq<R>, cur: Page<C, V>, next: Page<C, V>, third: Page<C, V>, pric: int)
    : seq<TableEntry<C>>
  {
    ExtensionFirstPass(ops, m, cur, next, third, pric) + ExtensionSecondPass(ops, m, next, third, pric)
  }

  /** Pass 1 of mult_extension1: pass 1 of mult_extension restricted to
      entries below the precision. */
  function Extension1FirstPass<C, V, I, R>(ops: Ops<C, V, I, R>, m: seq<R>, cur: Page<C, V>, next: Page<C, V>, third: Page<C, V>, pric: int)
    : seq<TableEntry<C>>
  {
    FilterMap(cur.entries, ValidUntaggedBelow(cur, pric), CycleImage(ops, m, next, third, pric, ops.defaultFlag))
  }

  /** Pass 2 of mult_extension1: gated on the current page's filtration of
      the tag, named with the flag false. */
  function Extension1SecondPass<C, V, I, R>(ops: Ops<C, V, I, R>, m: seq<R>, cur: Page<C, V>, next: Page<C, V>, third: Page<C, V>, pric: int)
    : seq<TableEntry<C>>
  {
    FilterMap(next.entries, TaggedBelowOnCurrent(cur, next, pric), TagImage(ops, m, next, third, pric, false))
  }

  /** mult_extension1: all pass-1 lines, then all pass-2 lines. */
  function Extension1Table<C, V, I, R>(ops: Ops<C, V, I, R>, m: seq<R>, cur: Page<C, V>, next: Page<C, V>, third: Page<C, V>, pric: int)
    : seq<TableEntry<C>>
  {
    Extension1FirstPass(ops, m, cur, next, third, pric) + Extension1SecondPass(ops, m, cur, next, third, pric)
  }

  /** three_extension: one line per valid untagged entry of the page. */
  function ThreeExtensionTable<C, V, I, R>(ops: Ops<C, V, I, R>, cur: Page<C, V>, pric: int): seq<TableEntry<C>>
  {
    FilterMap(cur.entries, ValidUntagged(cur), ThreeImage(ops, cur, pric))
  }

  /** The matrix multily_matrix builds for resolution degree i: the map
      loaded i-th from the maps file, generators[i - 1] and prims[i]. */
  function DegreeMatrix<G, P, Mp, R>(maxDeg: int, res: Resolution<G, P, Mp, R>, maps: seq<Mp>, generators: seq<G>, prims: seq<P>, i: int)
    : seq<R>
    requires 1 <= i <= |maps| && i <= |generators| && i < |prims|
  {
    MultiplyRows(maxDeg, res, maps[i - 1], generators[i - 1], prims[i])
  }

  // ---------------------------------------------------------------------
  // The engine
  // ---------------------------------------------------------------------

  /** The first loop of mult_extension: a line for every
      valid untagged entry of the current page. */
  method ExtendCycles<C, V, I, R>(ops: Ops<C, V, I, R>, multMatrix: Matrix<R>, cur: Page<C, V>, next: Page<C, V>, third: Page<C, V>, pric: int)
    returns (res: seq<TableEntry<C>>)
    ensures res == ExtensionFirstPass(ops, multMatrix.rows, cur, next, third, pric)
  {
    ghost var keep, image := ValidUntagged(cur), CycleImage(ops, multMatrix.rows, next, third, pric, ops.defaultFlag);
    res := [];
    for i := 0 to |cur.entries|
      invariant res == FilterMap(cur.entries[..i], keep, image)
    {
      FilterMapStep(cur.entries, i, keep, image);
      var tm := cur.entries[i];
      if !cur.valid(tm.cycle) {
        assert !keep(tm);
        continue;
      }
      if cur.tagged(tm) {
        assert !keep(tm);
        continue;
      }
      var v := ops.mapsTo(multMatrix.rows, tm.fullCycle);
      var cycls := ops.nameOfCycle(next, v, third, pric, ops.defaultFlag);
      var cm := ops.combineCycles(next, cycls);
      assert keep(tm) && image(tm) == TableEntry(tm.cycle, cm);
      res := res + [TableEntry(tm.cycle, cm)];
    }
    assert cur.entries[..|cur.entries|] == cur.entries;
  }

  /** The second loop of mult_extension: continues res0 with a line for
      every valid tagged entry of the next page not below the precision. */
  method ExtendTags<C, V, I, R>(res0: seq<TableEntry<C>>, ops: Ops<C, V, I, R>, multMatrix: Matrix<R>, next: Page<C, V>, third: Page<C, V>, pric: int)
    returns (res: seq<TableEntry<C>>)
    ensures res == res0 + ExtensionSecondPass(ops, multMatrix.rows, next, third, pric)
  {
    ghost var keep, image := TaggedAtLeast(next, pric), TagImage(ops, multMatrix.rows, next, third, pric, ops.defaultFlag);
    res := res0;
    for i := 0 to |next.entries|
      invariant res == res0 + FilterMap(next.entries[..i], keep, image)
    {
      FilterMapStep(next.entries, i, keep, image);
      var tm := next.entries[i];
      if !next.valid(tm.cycle) {
        assert !keep(tm);
        continue;
      }
      if !next.tagged(tm) {
        assert !keep(tm);
        continue;
      }
      if next.filtration(tm.cycle) < pric {
        assert !keep(tm);
        continue;
      }
      var v := ops.mapsTo(multMatrix.rows, tm.fullTag);
      var cycls := ops.nameOfCycle(next, v, third, pric, ops.defaultFlag);
      var cm := ops.combineCycles(next, cycls);
      assert keep(tm) && image(tm) == TableEntry(tm.tag, cm);
      res := res + [TableEntry(tm.tag, cm)];
    }
    assert next.entries[..|next.entries|] == next.entries;
  }

  /** mult_extension (template): the first loop, then the second loop
      appending to the same result. */
  method MultExtension<C, V, I, R>(ops: Ops<C, V, I, R>, multMatrix: Matrix<R>, cur: Page<C, V>, next: Page<C, V>, third: Page<C, V>, pric: int)
    returns (res: seq<TableEntry<C>>)
    ensures res == ExtensionTable(ops, multMatrix.rows, cur, next, third, pric)
  {
    res := ExtendCycles(ops, multMatrix, cur, next, third, pric);
    res := ExtendTags(res, ops, multMatrix, next, third, pric);
  }

  /** The first loop of mult_extension1: as in mult_extension, but skipping
      the entries whose filtration is not below the precision. */
  method ExtendCyclesBelow<C, V, I, R>(ops: Ops<C, V, I, R>, multMatrix: Matrix<R>, cur: Page<C, V>, next: Page<C, V>, third: Page<C, V>, pric: int)
    returns (res: seq<TableEntry<C>>)
    ensures res == Extension1FirstPass(ops, multMatrix.rows, cur, next, third, pric)
  {
    ghost var keep, image := ValidUntaggedBelow(cur, pric), CycleImage(ops, multMatrix.rows, next, third, pric, ops.defaultFlag);
    res := [];
    for i := 0 to |cur.entries|
      invariant res == FilterMap(cur.entries[..i], keep, image)
    {
      FilterMapStep(cur.entries, i, keep, image);
      var tm := cur.entries[i];
      if !cur.valid(tm.cycle) {
        assert !keep(tm);
        continue;
      }
      if cur.tagged(tm) {
        assert !keep(tm);
        continue;
      }
      if cur.filtration(tm.cycle) >= pric {
        assert !keep(tm);
        continue;
      }
      var v := ops.mapsTo(multMatrix.rows, tm.fullCycle);
      var cycls := ops.nameOfCycle(next, v, third, pric, ops.defaultFlag);
      var cm := ops.combineCycles(next, cycls);
      assert keep(tm) && image(tm) == TableEntry(tm.cycle, cm);
      res := res + [TableEntry(tm.cycle, cm)];
    }
    assert cur.entries[..|cur.entries|] == cur.entries;
  }

  /** The second loop of mult_extension1: gated on the current page's
      filtration of the tag, naming with the flag false. */
  method ExtendTagsBelowOnCurrent<C, V, I, R>(res0: seq<TableEntry<C>>, ops: Ops<C, V, I, R>, multMatrix: Matrix<R>, cur: Page<C, V>, next: Page<C, V>, third: Page<C, V>, pric: int)
    returns (res: seq<TableEntry<C>>)
    ensures res == res0 + Extension1SecondPass(ops, multMatrix.rows, cur, next, third, pric)
  {
    ghost var keep, image := TaggedBelowOnCurrent(cur, next, pric), TagImage(ops, multMatrix.rows, next, third, pric, false);
    res := res0;
    for i := 0 to |next.entries|
      invariant res == res0 + FilterMap(next.entries[..i], keep, image)
    {
      FilterMapStep(next.entries, i, keep, image);
      var tm := next.entries[i];
      if !next.valid(tm.cycle) {
        assert !keep(tm);
        continue;
      }
      if !next.tagged(tm) {
        assert !keep(tm);
        continue;
      }
      if cur.filtration(tm.tag) >= pric {
        assert !keep(tm);
        continue;
      }
      var v := ops.mapsTo(multMatrix.rows, tm.fullTag);
      var cycls := ops.nameOfCycle(next, v, third, pric, false);
      var cm := ops.combineCycles(next, cycls);
      assert keep(tm) && image(tm) == TableEntry(tm.tag, cm);
      res := res + [TableEntry(tm.tag, cm)];
    }
    assert next.entries[..|next.entries|] == next.entries;
  }

  /** mult_extension1 (template): the first loop, then the second loop
      appending to the same result. */
  method MultExtension1<C, V, I, R>(ops: Ops<C, V, I, R>, multMatrix: Matrix<R>, cur: Page<C, V>, next: Page<C, V>, third: Page<C, V>, pric: int)
    returns (res: seq<TableEntry<C>>)
    ensures res == Extension1Table(ops, multMatrix.rows, cur, next, third, pric)
  {
    res := ExtendCyclesBelow(ops, multMatrix, cur, next, third, pric);
    res := ExtendTagsBelowOnCurrent(res, ops, multMatrix, cur, next, third, pric);
  }

  /** three_extension (template); `three` is unit(3). */
  method ThreeExtension<C, V, I, R>(ops: Ops<C, V, I, R>, cur: Page<C, V>, pric: int) returns (res: seq<TableEntry<C>>)
    ensures res == ThreeExtensionTable(ops, cur, pric)
  {
    ghost var keep, image := ValidUntagged(cur), ThreeImage(ops, cur, pric);
    var three := Unit(3);
    res := [];
    for i := 0 to |cur.entries|
      invariant res == FilterMap(cur.entries[..i], keep, image)
    {
      FilterMapStep(cur.entries, i, keep, image);
      var tm := cur.entries[i];
      if !cur.valid(tm.cycle) {
        continue;
      }
      if cur.tagged(tm) {
        continue;
      }
      var v := ops.scalarMult(cur, three, tm.fullCycle);
      res := res + [TableEntry(tm.cycle, ops.nameOnPage(cur, v, pric))];
    }
    assert cur.entries[..|cur.entries|] == cur.entries;
  }

  /** The table a driver computes for resolution degree i: pages i - 1, i
      and i + 1 extended through the matrix of degree i with precision pric,
      or pric - i when the precision is not fixed; `variant` selects
      mult_extension1. */
  function DegreeTable<C, V, I, G, P, Mp, R>(ops: Ops<C, V, I, R>, res: Resolution<G, P, Mp, R>, maxDeg: int,
                                             generators: seq<G>, maps: seq<Mp>, prims: seq<P>, tables: seq<Page<C, V>>,
                                             pric: int, fixedPric: bool, variant: bool, i: int): seq<TableEntry<C>>
    requires 1 <= i <= |maps| && i <= |generators| && i < |prims| && i + 1 < |tables|
  {
    var m := DegreeMatrix(maxDeg, res, maps, generators, prims, i);
    var cpric := if fixedPric then pric else pric - i;
    if variant then Extension1Table(ops, m, tables[i - 1], tables[i], tables[i + 1], cpric)
    else ExtensionTable(ops, m, tables[i - 1], tables[i], tables[i + 1], cpric)
  }

  /** The tables of degrees 1, ..., n, in order. */
  function DegreeTables<C, V, I, G, P, Mp, R>(ops: Ops<C, V, I, R>, res: Resolution<G, P, Mp, R>, maxDeg: int,
                                              generators: seq<G>, maps: seq<Mp>, prims: seq<P>, tables: seq<Page<C, V>>,
                                              pric: int, fixedPric: bool, variant: bool, n: nat): (r: seq<seq<TableEntry<C>>>)
    requires n == 0 || (n <= |maps| && n <= |generators| && n < |prims| && n + 1 < |tables|)
    ensures |r| == n
  {
    if n == 0 then []
    else DegreeTables(ops, res, maxDeg, generators, maps, prims, tables, pric, fixedPric, variant, n - 1)
         + [DegreeTable(ops, res, maxDeg, generators, maps, prims, tables, pric, fixedPric, variant, n)]
  }

  /** The drivers return one table per degree 1, ..., n, in order: entry
      i - 1 is the table of degree i. */
  lemma {:induction false} DegreeTablesAt<C, V, I, G, P, Mp, R>(ops: Ops<C, V, I, R>, res: Resolution<G, P, Mp, R>, maxDeg: int,
                                                                generators: seq<G>, maps: seq<Mp>, prims: seq<P>, tables: seq<Page<C, V>>,
                                                                pric: int, fixedPric: bool, variant: bool, n: nat)
    requires n == 0 || (n <= |maps| && n <= |generators| && n < |prims| && n + 1 < |tables|)
    ensures |DegreeTables(ops, res, maxDeg, generators, maps, prims, tables, pric, fixedPric, variant, n)| == n
    ensures forall i :: 1 <= i <= n ==>
      DegreeTables(ops, res, maxDeg, generators, maps, prims, tables, pric, fixedPric, variant, n)[i - 1]
      == DegreeTable(ops, res, maxDeg, generators, maps, prims, tables, pric, fixedPric, variant, i)
  {
    if n > 0 {
      DegreeTablesAt(ops, res, maxDeg, generators, maps, prims, tables, pric, fixedPric, variant, n - 1);
      var prev := DegreeTables(ops, res, maxDeg, generators, maps, prims, tables, pric, fixedPric, variant, n - 1);
      var last := DegreeTable(ops, res, maxDeg, generators, maps, prims, tables, pric, fixedPric, variant, n);
      assert DegreeTables(ops, res, maxDeg, generators, maps, prims, tables, pric, fixedPric, variant, n) == prev + [last];
    }
  }

  /** One iteration of the extension drivers: clear mm, rebuild it for
      degree i from map i - 1, generators[i - 1] and prims[i], and extend
      pages i - 1, i, i + 1 through it with the degree's precision. */
  method ExtendAtDegree<C, V, I, G, P, Mp, R>(ops: Ops<C, V, I, R>, res: Resolution<G, P, Mp, R>, maxDeg: int,
                                              generators: seq<G>, maps: seq<Mp>, prims: seq<P>, tables: seq<Page<C, V>>,
                                              mm: Matrix<R>, pric: int, fixedPric: bool, variant: bool, i: int)
    returns (newTable: seq<TableEntry<C>>)
    requires 1 <= i <= |maps| && i <= |generators| && i < |prims| && i + 1 < |tables|
    modifies mm
    ensures mm.rows == DegreeMatrix(maxDeg, res, maps, generators, prims, i)
    ensures newTable == DegreeTable(ops, res, maxDeg, generators, maps, prims, tables, pric, fixedPric, variant, i)
  {
    mm.Clear();
    MultiplyMatrix(maxDeg, res, maps[i - 1], generators[i - 1], prims[i], mm);
    var cpric := if fixedPric then pric else pric - i;
    if variant {
      newTable := MultExtension1(ops, mm, tables[i - 1], tables[i], tables[i + 1], cpric);
    } else {
      newTable := MultExtension(ops, mm, tables[i - 1], tables[i], tables[i + 1], cpric);
    }
  }

  /** mult_extension (driver): for each degree 1 <= i < resolutionLength - 1,
      rebuild the matrix from the next map of the maps file and extend
      through pages i - 1, i, i + 1 with precision pric, or pric - i when
      the precision is not fixed. */
  method MultExtensionTables<C, V, I, G, P, Mp, R>(ops: Ops<C, V, I, R>, res: Resolution<G, P, Mp, R>, maxDeg: int, resolutionLength: int,
                                                   generators: seq<G>, maps: seq<Mp>, prims: seq<P>, tables: seq<Page<C, V>>,
                                                   mm: Matrix<R>, pric: int, fixedPric: bool)
    returns (result: seq<seq<TableEntry<C>>>)
    requires resolutionLength <= 2 ||
      (resolutionLength - 2 <= |maps| && resolutionLength - 2 <= |generators| && resolutionLength - 1 <= |prims| && resolutionLength <= |tables|)
    modifies mm
    ensures result == DegreeTables(ops, res, maxDeg, generators, maps, prims, tables, pric, fixedPric, false,
                                   if resolutionLength >= 2 then resolutionLength - 2 else 0)
    ensures resolutionLength > 2 ==> mm.rows == DegreeMatrix(maxDeg, res, maps, generators, prims, resolutionLength - 2)
    ensures resolutionLength <= 2 ==> mm.rows == old(mm.rows)
  {
    result := [];
    var i := 1;
    while i < resolutionLength - 1
      invariant 1 <= i <= if resolutionLength >= 2 then resolutionLength - 1 else 1
      invariant result == DegreeTables(ops, res, maxDeg, generators, maps, prims, tables, pric, fixedPric, false, i - 1)
      invariant i == 1 ==> mm.rows == old(mm.rows)
      invariant i > 1 ==> mm.rows == DegreeMatrix(maxDeg, res, maps, generators, prims, i - 1)
    {
      var newTable := ExtendAtDegree(ops, res, maxDeg, generators, maps, prims, tables, mm, pric, fixedPric, false, i);
      result := result + [newTable];
      i := i + 1;
    }
  }

  /** mult_extension1 (driver): the same schedule with mult_extension1. */
  method MultExtension1Tables<C, V, I, G, P, Mp, R>(ops: Ops<C, V, I, R>, res: Resolution<G, P, Mp, R>, maxDeg: int, resolutionLength: int,
                                                    generators: seq<G>, maps: seq<Mp>, prims: seq<P>, tables: seq<Page<C, V>>,
                                                    mm: Matrix<R>, pric: int, fixedPric: bool)
    returns (result: seq<seq<TableEntry<C>>>)
    requires resolutionLength <= 2 ||
      (resolutionLength - 2 <= |maps| && resolutionLength - 2 <= |generators| && resolutionLength - 1 <= |prims| && resolutionLength <= |tables|)
    modifies mm
    ensures result == DegreeTables(ops, res, maxDeg, generators, maps, prims, tables, pric, fixedPric, true,
                                   if resolutionLength >= 2 then resolutionLength - 2 else 0)
    ensures resolutionLength > 2 ==> mm.rows == DegreeMatrix(maxDeg, res, maps, generators, prims, resolutionLength - 2)
    ensures resolutionLength <= 2 ==> mm.rows == old(mm.rows)
  {
    result := [];
    var i := 1;
    while i < resolutionLength - 1
      invariant 1 <= i <= if resolutionLength >= 2 then resolutionLength - 1 else 1
      invariant result == DegreeTables(ops, res, maxDeg, generators, maps, prims, tables, pric, fixedPric, true, i - 1)
      invariant i == 1 ==> mm.rows == old(mm.rows)
      invariant i > 1 ==> mm.rows == DegreeMatrix(maxDeg, res, maps, generators, prims, i - 1)
    {
      var newTable := ExtendAtDegree(ops, res, maxDeg, generators, maps, prims, tables, mm, pric, fixedPric, true, i);
      result := result + [newTable];
      i := i + 1;
    }
  }

  /** three_extension (driver): one table per degree 0 <= i < resolutionLength,
      with precision pric - i. */
  method ThreeExtensionTables<C, V, I, R>(ops: Ops<C, V, I, R>, resolutionLength: int, tables: seq<Page<C, V>>, pric: int)
    returns (result: seq<seq<TableEntry<C>>>)
    requires resolutionLength <= |tables|
    ensures |result| == if resolutionLength >= 0 then resolutionLength else 0
    ensures forall i :: 0 <= i < resolutionLength ==> result[i] == ThreeExtensionTable(ops, tables[i], pric - i)
  {
    result := [];
    var i := 0;
    while i < resolutionLength
      invariant 0 <= i <= if resolutionLength >= 0 then resolutionLength else 0
      invariant |result| == i
      invariant forall j :: 0 <= j < i ==> result[j] == ThreeExtensionTable(ops, tables[j], pric - j)
    {
      var newTable := ThreeExtension(ops, tables[i], pric - i);
      result := result + [newTable];
      i := i + 1;
    }
  }

  // ---------------------------------------------------------------------
  // What the tables contain
  // ---------------------------------------------------------------------

  /** Pass 1 of mult_extension has exactly one line per valid untagged
      entry of the current page, in page order, keyed by its cycle and
      named from the image of its full cycle. */
  lemma ExtensionFirstPassEntries<C, V, I, R>(ops: Ops<C, V, I, R>, m: seq<R>, cur: Page<C, V>, next: Page<C, V>, third: Page<C, V>, pric: int)
    ensures var r, k := ExtensionFirstPass(ops, m, cur, next, third, pric), KeptIndices(cur.entries, ValidUntagged(cur));
      |r| == |k| <= |cur.entries| && Increasing(k)
      && (forall j :: 0 <= j < |cur.entries| ==>
            (j in k <==> cur.valid(cur.entries[j].cycle) && !cur.tagged(cur.entries[j])))
      && (forall t :: 0 <= t < |k| ==>
            (k[t] < |cur.entries| &&
             var e := cur.entries[k[t]];
             r[t] == TableEntry(e.cycle, ops.combineCycles(next, ops.nameOfCycle(next, ops.mapsTo(m, e.fullCycle), third, pric, ops.defaultFlag)))))
  {
    FilterMapAt(cur.entries, ValidUntagged(cur), CycleImage(ops, m, next, third, pric, ops.defaultFlag));
  }

  /** Pass 2 of mult_extension has exactly one line per valid tagged entry
      of the next page whose filtration is at least pric, in page order,
      keyed by its tag and named from the image of its full tag. */
  lemma ExtensionSecondPassEntries<C, V, I, R>(ops: Ops<C, V, I, R>, m: seq<R>, next: Page<C, V>, third: Page<C, V>, pric: int)
    ensures var r, k := ExtensionSecondPass(ops, m, next, third, pric), KeptIndices(next.entries, TaggedAtLeast(next, pric));
      |r| == |k| <= |next.entries| && Increasing(k)
      && (forall j :: 0 <= j < |next.entries| ==>
            (j in k <==> next.valid(next.entries[j].cycle) && next.tagged(next.entries[j])
                         && next.filtration(next.entries[j].cycle) >= pric))
      && (forall t :: 0 <= t < |k| ==>
            (k[t] < |next.entries| &&
             var e := next.entries[k[t]];
             r[t] == TableEntry(e.tag, ops.combineCycles(next, ops.nameOfCycle(next, ops.mapsTo(m, e.fullTag), third, pric, ops.defaultFlag)))))
  {
    FilterMapAt(next.entries, TaggedAtLeast(next, pric), TagImage(ops, m, next, third, pric, ops.defaultFlag));
  }

  /** Pass 1 of mult_extension1 has exactly one line per valid untagged
      entry of the current page whose filtration is below pric. */
  lemma Extension1FirstPassEntries<C, V, I, R>(ops: Ops<C, V, I, R>, m: seq<R>, cur: Page<C, V>, next: Page<C, V>, third: Page<C, V>, pric: int)
    ensures var r, k := Extension1FirstPass(ops, m, cur, next, third, pric), KeptIndices(cur.entries, ValidUntaggedBelow(cur, pric));
      |r| == |k| <= |cur.entries| && Increasing(k)
      && (forall j :: 0 <= j < |cur.entries| ==>
            (j in k <==> cur.valid(cur.entries[j].cycle) && !cur.tagged(cur.entries[j])
                         && cur.filtration(cur.entries[j].cycle) < pric))
      && (forall t :: 0 <= t < |k| ==>
            (k[t] < |cur.entries| &&
             var e := cur.entries[k[t]];
             r[t] == TableEntry(e.cycle, ops.combineCycles(next, ops.nameOfCycle(next, ops.mapsTo(m, e.fullCycle), third, pric, ops.defaultFlag)))))
  {
    FilterMapAt(cur.entries, ValidUntaggedBelow(cur, pric), CycleImage(ops, m, next, third, pric, ops.defaultFlag));
  }

  /** Pass 2 of mult_extension1 has exactly one line per valid tagged entry
      of the next page whose TAG has filtration below pric on the CURRENT
      page, named with the flag false. */
  lemma Extension1SecondPassEntries<C, V, I, R>(ops: Ops<C, V, I, R>, m: seq<R>, cur: Page<C, V>, next: Page<C, V>, third: Page<C, V>, pric: int)
    ensures var r, k := Extension1SecondPass(ops, m, cur, next, third, pric), KeptIndices(next.entries, TaggedBelowOnCurrent(cur, next, pric));
      |r| == |k| <= |next.entries| && Increasing(k)
      && (forall j :: 0 <= j < |next.entries| ==>
            (j in k <==> next.valid(next.entries[j].cycle) && next.tagged(next.entries[j])
                         && cur.filtration(next.entries[j].tag) < pric))
      && (forall t :: 0 <= t < |k| ==>
            (k[t] < |next.entries| &&
             var e := next.entries[k[t]];
             r[t] == TableEntry(e.tag, ops.combineCycles(next, ops.nameOfCycle(next, ops.mapsTo(m, e.fullTag), third, pric, false)))))
  {
    FilterMapAt(next.entries, TaggedBelowOnCurrent(cur, next, pric), TagImage(ops, m, next, third, pric, false));
  }

  /** Line by line, the table of mult_extension is keyed first by the kept
      entries of the current page (by cycle, in page order) and then by the
      kept entries of the next page (by tag, in page order), and nothing
      else; so every pass-1 line precedes every pass-2 line. */
  lemma ExtensionTablesOrder<C, V, I, R>(ops: Ops<C, V, I, R>, m: seq<R>, cur: Page<C, V>, next: Page<C, V>, third: Page<C, V>, pric: int)
    ensures var r, k1, k2 := ExtensionTable(ops, m, cur, next, third, pric),
                             KeptIndices(cur.entries, ValidUntagged(cur)), KeptIndices(next.entries, TaggedAtLeast(next, pric));
      |r| == |k1| + |k2| <= |cur.entries| + |next.entries|
      && (forall t :: 0 <= t < |k1| ==> k1[t] < |cur.entries| && r[t].originalName == cur.entries[k1[t]].cycle)
      && (forall u :: 0 <= u < |k2| ==> k2[u] < |next.entries| && r[|k1| + u].originalName == next.entries[k2[u]].tag)
  {
    FilterMapConcatAt(cur.entries, ValidUntagged(cur), CycleImage(ops, m, next, third, pric, ops.defaultFlag),
                      next.entries, TaggedAtLeast(next, pric), TagImage(ops, m, next, third, pric, ops.defaultFlag));
  }

  /** The same order for mult_extension1, with its own two passes. */
  lemma Extension1TablesOrder<C, V, I, R>(ops: Ops<C, V, I, R>, m: seq<R>, cur: Page<C, V>, next: Page<C, V>, third: Page<C, V>, pric: int)
    ensures var r, k1, k2 := Extension1Table(ops, m, cur, next, third, pric),
                             KeptIndices(cur.entries, ValidUntaggedBelow(cur, pric)), KeptIndices(next.entries, TaggedBelowOnCurrent(cur, next, pric));
      |r| == |k1| + |k2| <= |cur.entries| + |next.entries|
      && (forall t :: 0 <= t < |k1| ==> k1[t] < |cur.entries| && r[t].originalName == cur.entries[k1[t]].cycle)
      && (forall u :: 0 <= u < |k2| ==> k2[u] < |next.entries| && r[|k1| + u].originalName == next.entries[k2[u]].tag)
  {
    FilterMapConcatAt(cur.entries, ValidUntaggedBelow(cur, pric), CycleImage(ops, m, next, third, pric, ops.defaultFlag),
                      next.entries, TaggedBelowOnCurrent(cur, next, pric), TagImage(ops, m, next, third, pric, false));
  }

  /** three_extension produces exactly one line per valid untagged entry of
      the page, in page order, keyed by its cycle and named on the same page
      from 3 times its full cycle. */
  lemma ThreeExtensionTableEntries<C, V, I, R>(ops: Ops<C, V, I, R>, cur: Page<C, V>, pric: int)
    ensures var r, k := ThreeExtensionTable(ops, cur, pric), KeptIndices(cur.entries, ValidUntagged(cur));
      |r| == |k| <= |cur.entries| && Increasing(k)
      && (forall j :: 0 <= j < |cur.entries| ==>
            (j in k <==> cur.valid(cur.entries[j].cycle) && !cur.tagged(cur.entries[j])))
      && (forall t :: 0 <= t < |k| ==>
            (k[t] < |cur.entries| &&
             var e := cur.entries[k[t]];
             r[t] == TableEntry(e.cycle, ops.nameOnPage(cur, ops.scalarMult(cur, 3, e.fullCycle), pric))))
  {
    assert Unit(3) == 3;
    FilterMapAt(cur.entries, ValidUntagged(cur), ThreeImage(ops, cur, pric));
  }

  /** The lines whose source has filtration below pric on the page. */
  function SourceBelow<C, V>(cur: Page<C, V>, pric: int): TableEntry<C> -> bool
  {
    (t: TableEntry<C>) => cur.filtration(t.originalName) < pric
  }

  /** The first pass of mult_extension1 is the first pass of mult_extension
      with the lines whose source has filtration at least pric removed. */
  lemma Extension1FirstPassRefines<C, V, I, R>(ops: Ops<C, V, I, R>, m: seq<R>, cur: Page<C, V>, next: Page<C, V>, third: Page<C, V>, pric: int)
    ensures Extension1FirstPass(ops, m, cur, next, third, pric)
         == Filter(ExtensionFirstPass(ops, m, cur, next, third, pric), SourceBelow(cur, pric))
  {
    FilterMapRefine(cur.entries, ValidUntagged(cur), CycleImage(ops, m, next, third, pric, ops.defaultFlag),
                    SourceBelow(cur, pric), ValidUntaggedBelow(cur, pric));
  }

  /** three_extension lists the same sources, in the same order, as the
      first pass of mult_extension on the same page, whatever the matrix,
      the other pages and the precisions. */
  lemma ThreeExtensionSameSources<C, V, I, R>(ops: Ops<C, V, I, R>, m: seq<R>, cur: Page<C, V>, next: Page<C, V>, third: Page<C, V>, pric: int, pric': int)
    ensures var r3, r := ThreeExtensionTable(ops, cur, pric), ExtensionFirstPass(ops, m, cur, next, third, pric');
      |r3| == |r| && forall t :: 0 <= t < |r3| ==> r3[t].originalName == r[t].originalName
  {
    var key := (t: TableEntry<C>) => t.originalName;
    var f, f' := ThreeImage(ops, cur, pric), CycleImage(ops, m, next, third, pric', ops.defaultFlag);
    assert forall e :: key(f(e)) == key(f'(e));
    FilterMapSameKeys(cur.entries, ValidUntagged(cur), f, f', key);
    var r3, r := FilterMap(cur.entries, ValidUntagged(cur), f), FilterMap(cur.entries, ValidUntagged(cur), f');
    forall t | 0 <= t < |r3|
      ensures r3[t].originalName == r[t].originalName
    {
      assert key(r3[t]) == key(r[t]);
    }
  }
}
