/** The spectral-sequence tables and the operations on them that the
    multiplication engine consumes. The tables' own logic (which cycles are
    boundaries, how a chain is identified) lives outside this model, so
    every table operation is a function-valued field: the engine is proved
    correct for every behaviour those operations may have. */
module Tables {
  import opened Z3Ring

  /** The name of a multiplied class: two lists of cycle names. `first`
      holds the names derived from tags, `second` the direct ones. */
  datatype Names<C> = Names(first: seq<C>, second: seq<C>)

  /** One line of a multiplication table: a source cycle and the names of
      its image under the multiplication. */
  datatype TableEntry<C> = TableEntry(originalName: C, multipliedNames: Names<C>)

  /** One entry of a page: a named cycle with its chain representative,
      and the companion tag with its representative. */
  datatype PageEntry<C, V> = PageEntry(cycle: C, fullCycle: V, tag: C, fullTag: V)

  /** A page of the spectral sequence at one resolution degree: its entries
      in table order and the queries the engine asks of it. */
  datatype Page<!C, !V> = Page(
    entries: seq<PageEntry<C, V>>,
    valid: C -> bool,
    tagged: PageEntry<C, V> -> bool,
    filtration: C -> int,
    output: (C, int) -> string)

  /** The operations the engine calls on pages, modules and matrices whose
      bodies are not part of the model.
      - mapsTo(m, v): the image of v under the matrix with rows m;
      - nameOfCycle(page, v, third, pric, flag): page.name_of_cycle(v, &third, pric, flag);
      - defaultFlag: the flag the three-argument call of name_of_cycle passes;
      - combineCycles(page, n): page.combine_cycles(n);
      - nameOnPage(page, v, pric): the two-argument page.name_of_cycle(v, pric);
      - scalarMult(page, a, v): the page's module operation scalor_mult(a, v). */
  datatype Ops<!C, !V, !I, !R> = Ops(
    mapsTo: (seq<R>, V) -> V,
    nameOfCycle: (Page<C, V>, V, Page<C, V>, int, bool) -> I,
    defaultFlag: bool,
    combineCycles: (Page<C, V>, I) -> Names<C>,
    nameOnPage: (Page<C, V>, V, int) -> Names<C>,
    scalarMult: (Page<C, V>, u64, V) -> V)
}
