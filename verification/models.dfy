/** The records of `src/models.rs` and the two row mappers that build them
    from the cells of one table row. */
module Models {
  import opened Errors
  import opened Text
  import opened Search
  import opened Markup

  /** One attribute of an element, as a key and a value. */
  datatype Attribute = Attribute(key: string, value: string)

  /** A child node of a table row. `html` is the node's serialised markup;
      only an element carries an attribute list. */
  datatype Node =
    | Element(attrs: seq<Attribute>, html: string)
    | NonElement(html: string)

  /** One entry of the summary feed. */
  datatype ChampionSummary = ChampionSummary(name: string, id: int, alias: string)

  /** A scraped record. The ARAM page yields the first shape, the Arena page
      the second; `id` stays 0 until the resolver fills it in. */
  datatype ChampionStats =
    | AramChampionStats(name: string, id: int, damageDealt: real, damageReceived: real, other: string)
    | ArenaChampionStats(name: string, id: int, other: string)

  /** The output: both tables keyed by resolved alias. */
  datatype Stats = Stats(aram: map<string, ChampionStats>, arena: map<string, ChampionStats>)

  /** The foreign calls the mappers make: `html_escape::decode_html_entities`
      and `str::parse::<f32>` (`None` where the parse fails). */
  datatype Library = Library(decodeEntities: string -> string, parseNumber: string -> Option<real>)

  const SortValueKey := "data-sort-value"

  /** The neutral damage modifier a blank cell stands for. */
  const Baseline: real := 100.0

  /** The value of the first attribute called `key`, as `find` on the
      attribute list returns it. */
  function FindAttribute(attrs: seq<Attribute>, key: string): (r: Option<string>)
    ensures r.None? <==> forall i :: 0 <= i < |attrs| ==> attrs[i].key != key
    ensures r.Some? ==> exists i :: IsFirst(attrs, (a: Attribute) => a.key == key, i) && attrs[i].value == r.value
  {
    match First(attrs, (a: Attribute) => a.key == key)
    case None => None
    case Some(i) =>
      assert IsFirst(attrs, (a: Attribute) => a.key == key, i);
      Some(attrs[i].value)
  }

  /** The first cell of a valid row: an element with a sort value. */
  predicate HasSortValue(cell: Node) {
    cell.Element? && FindAttribute(cell.attrs, SortValueKey).Some?
  }

  function SortValue(cell: Node): string
    requires HasSortValue(cell)
  {
    FindAttribute(cell.attrs, SortValueKey).value
  }

  /** `parse_damage_stat`: a blank cell is the baseline; otherwise the cell
      shows an offset from the baseline, possibly with `%` signs. The
      contract is stated over the cell's visible text. */
  function ParseDamageStat(lib: Library, html: string): (r: Result<real>)
    ensures |Visible(html)| == 0 ==> r == Ok(Baseline)
    ensures |Visible(html)| > 0 ==>
      var number := RemoveAll(Visible(html), '%');
      if lib.parseNumber(number).Some?
      then r == Ok(Baseline + lib.parseNumber(number).value)
      else r == Err(ParseFailure(number))
  {
    StripHtmlIsVisible(html);
    var text := StripHtml(html);
    if |text| == 0 then Ok(Baseline)
    else
      var number := RemoveAll(text, '%');
      match lib.parseNumber(number)
      case None => Err(ParseFailure(number))
      case Some(x) => Ok(Baseline + x)
  }

  /** `AramChampionStats::new`. Every abort of the Rust code becomes an error,
      checked in the order the struct fields are evaluated: cell 0 and its
      sort value, then cells 1, 2 and 3. */
  function NewAram(lib: Library, cells: seq<Node>): (r: Result<ChampionStats>)
    ensures r.Ok? <==>
      && |cells| >= 4
      && HasSortValue(cells[0])
      && ParseDamageStat(lib, cells[1].html).Ok?
      && ParseDamageStat(lib, cells[2].html).Ok?
    ensures r.Ok? ==>
      && r.value.AramChampionStats?
      && r.value.name == lib.decodeEntities(SortValue(cells[0]))
      && r.value.id == 0
      && r.value.damageDealt == ParseDamageStat(lib, cells[1].html).value
      && r.value.damageReceived == ParseDamageStat(lib, cells[2].html).value
      && r.value.other == GetInnerHtml(cells[3].html)
    ensures r.Err? && r.error.MissingCell? ==> r.error.index == |cells| < 4
    ensures |cells| > 0 && !HasSortValue(cells[0]) ==>
      r == Err(if cells[0].Element? then MissingSortValue else NotAnElement)
    ensures r.Err? && r.error.ParseFailure? ==> |cells| > 1 && HasSortValue(cells[0])
    ensures |cells| == 0 ==> r == Err(MissingCell(0))
    ensures |cells| >= 2 && HasSortValue(cells[0]) && ParseDamageStat(lib, cells[1].html).Err? ==>
      r == Err(ParseDamageStat(lib, cells[1].html).error)
    ensures && |cells| >= 3 && HasSortValue(cells[0])
            && ParseDamageStat(lib, cells[1].html).Ok?
            && ParseDamageStat(lib, cells[2].html).Err?
            ==> r == Err(ParseDamageStat(lib, cells[2].html).error)
    ensures && 0 < |cells| < 4 && HasSortValue(cells[0])
            && (|cells| < 2 || ParseDamageStat(lib, cells[1].html).Ok?)
            && (|cells| < 3 || ParseDamageStat(lib, cells[2].html).Ok?)
            ==> r == Err(MissingCell(|cells|))
  {
    if |cells| == 0 then Err(MissingCell(0))
    else if !cells[0].Element? then Err(NotAnElement)
    else match FindAttribute(cells[0].attrs, SortValueKey)
      case None => Err(MissingSortValue)
      case Some(value) =>
        var name := lib.decodeEntities(value);
        if |cells| < 2 then Err(MissingCell(1))
        else
          var dealt :- ParseDamageStat(lib, cells[1].html);
          if |cells| < 3 then Err(MissingCell(2))
          else
            var received :- ParseDamageStat(lib, cells[2].html);
            if |cells| < 4 then Err(MissingCell(3))
            else Ok(AramChampionStats(name, 0, dealt, received, GetInnerHtml(cells[3].html)))
  }

  /** `ArenaChampionStats::new`: the same name column, and cell 3 for the rest. */
  function NewArena(lib: Library, cells: seq<Node>): (r: Result<ChampionStats>)
    ensures r.Ok? <==> |cells| >= 4 && HasSortValue(cells[0])
    ensures r.Ok? ==>
      && r.value.ArenaChampionStats?
      && r.value.name == lib.decodeEntities(SortValue(cells[0]))
      && r.value.id == 0
      && r.value.other == GetInnerHtml(cells[3].html)
    ensures r.Err? && r.error.MissingCell? ==> r.error.index == (if |cells| == 0 then 0 else 3)
    ensures |cells| > 0 && !HasSortValue(cells[0]) ==>
      r == Err(if cells[0].Element? then MissingSortValue else NotAnElement)
    ensures r.Err? ==> !r.error.ParseFailure?
    ensures |cells| == 0 ==> r == Err(MissingCell(0))
    ensures 0 < |cells| < 4 && HasSortValue(cells[0]) ==> r == Err(MissingCell(3))
  {
    if |cells| == 0 then Err(MissingCell(0))
    else if !cells[0].Element? then Err(NotAnElement)
    else match FindAttribute(cells[0].attrs, SortValueKey)
      case None => Err(MissingSortValue)
      case Some(value) =>
        var name := lib.decodeEntities(value);
        if |cells| < 4 then Err(MissingCell(3))
        else Ok(ArenaChampionStats(name, 0, GetInnerHtml(cells[3].html)))
  }

  /** Any row the ARAM mapper accepts, the Arena mapper accepts too, and the
      two read the same name and the same trailing column from it. */
  lemma AramRowIsArenaRow(lib: Library, cells: seq<Node>)
    ensures NewAram(lib, cells).Ok? ==>
      && NewArena(lib, cells).Ok?
      && NewArena(lib, cells).value.name == NewAram(lib, cells).value.name
      && NewArena(lib, cells).value.other == NewAram(lib, cells).value.other
  {
  }

  /** A blank damage cell is the baseline. */
  lemma BlankCellIsBaseline(lib: Library)
    ensures ParseDamageStat(lib, "<td></td>") == Ok(100.0)
  {
    StripHtmlOfCell([]);
    StripHtmlIsVisible("<td>" + [] + "</td>");
    assert "<td>" + [] + "</td>" == "<td></td>";
  }

  /** A cell showing `-12%` is 100 plus that offset, given a number parser
      that reads `-12`. */
  lemma NegativeOffsetCell(lib: Library)
    requires lib.parseNumber("-12") == Some(-12.0)
    ensures ParseDamageStat(lib, "<td>" + "-12%" + "</td>") == Ok(88.0)
  {
    StripHtmlOfCell("-12%");
    StripHtmlIsVisible("<td>" + "-12%" + "</td>");
    assert RemoveAll("-12%", '%') == "-12";
  }

  /** Whitespace is not blank: the emptiness test comes before any trimming,
      so a cell showing only a space goes to the number parser. */
  lemma WhitespaceCellIsParsed(lib: Library)
    requires lib.parseNumber(" ") == None
    ensures ParseDamageStat(lib, "<td>" + " " + "</td>") == Err(ParseFailure(" "))
  {
    StripHtmlOfCell(" ");
    StripHtmlIsVisible("<td>" + " " + "</td>");
    assert RemoveAll(" ", '%') == " ";
  }
}
