/** The city-data reader (read_list.c): the list of zip codes read from a
    file, the page URL of each, and the three demographic values picked out
    of each line of a page. */
module CityData {
  import opened CStrings
  import Buffer

  const BASE_URL := "http://www.city-data.com/zips/"
  const URL_SUFFIX := ".html"
  /** `char url[64]`. */
  const URL_BUF: nat := 64
  /** `char zip_code[8]`, and the 8 bytes each node's code gets. */
  const CODE_BUF: nat := 8

  /** The characters `isspace` accepts in the C locale: where `%s` stops. */
  const WHITESPACE: set<char> := {' ', '\t', '\n', '\U{000B}', '\U{000C}', '\r'}

  // ---------------------------------------------------------------------
  // loadLinkedList

  /** A `ZipCode` node: its code, or NULL in the node that closes the list. */
  datatype CodeNode = CodeNode(code: Option<seq<char>>)

  /** `fscanf(fp, "%s", zip_code)` reads words into an 8-byte buffer: each
      word must leave room for its NUL. */
  predicate WordsFit(text: seq<char>)
  {
    forall k :: 0 <= k < |Tokens(text, WHITESPACE)| ==> |Tokens(text, WHITESPACE)[k]| < CODE_BUF
  }

  function CodeNodes(words: seq<seq<char>>): (r: seq<CodeNode>)
    ensures |r| == |words|
    ensures forall k :: 0 <= k < |r| ==> r[k] == CodeNode(Some(words[k]))
  {
    seq(|words|, k requires 0 <= k < |words| => CodeNode(Some(words[k])))
  }

  /** `loadLinkedList(fp)`: a node per whitespace-separated word of the file,
      in file order, then one node whose code is NULL. */
  function LoadList(text: seq<char>): (r: seq<CodeNode>)
    requires WordsFit(text)
    ensures |r| >= 1 && r[|r| - 1].code.None?
    ensures forall k :: 0 <= k < |r| - 1 ==>
      && r[k].code.Some? && r[k].code.value != []
      && NoneIn(r[k].code.value, WHITESPACE) && |r[k].code.value| < CODE_BUF
  {
    CodeNodes(Tokens(text, WHITESPACE)) + [CodeNode(None)]
  }

  /** The codes the fetch loop of `main` visits: it runs while the node has a
      successor, so it stops short of the closing node. */
  function Visited(list: seq<CodeNode>): (r: seq<seq<char>>)
    requires |list| >= 1
    requires forall k :: 0 <= k < |list| - 1 ==> list[k].code.Some?
    ensures |r| == |list| - 1
    ensures forall k :: 0 <= k < |r| ==> list[k].code == Some(r[k])
  {
    seq(|list| - 1, k requires 0 <= k < |list| - 1 => list[k].code.value)
  }

  /** The fetch loop visits exactly the file's words, in order: it never
      sees the NULL code, and together the codes hold every character of the
      file that is not whitespace. */
  lemma VisitsEveryWord(text: seq<char>)
    requires WordsFit(text)
    ensures Visited(LoadList(text)) == Tokens(text, WHITESPACE)
    ensures Flatten(Visited(LoadList(text))) == Strip(text, WHITESPACE)
  {
    var v := Visited(LoadList(text));
    assert v == Tokens(text, WHITESPACE);
    TokensKeepText(text, WHITESPACE);
  }

  // ---------------------------------------------------------------------
  // The URL of one code

  /** `char url[64] = BASE_URL; strcat(url, code); strcat(url, ".html");`:
      the result must leave room for its NUL. */
  function CodeUrl(code: seq<char>): (url: seq<char>)
    requires |BASE_URL| + |code| + |URL_SUFFIX| < URL_BUF
    ensures url == BASE_URL + code + URL_SUFFIX
    ensures |url| < URL_BUF
  {
    BASE_URL + code + URL_SUFFIX
  }

  /** Every code the list can hold fits: 30 + 7 + 5 characters. */
  lemma ListedCodeUrlFits(text: seq<char>)
    requires WordsFit(text)
    ensures forall code :: code in Visited(LoadList(text)) ==>
      |BASE_URL| + |code| + |URL_SUFFIX| < URL_BUF
  {
  }

  // ---------------------------------------------------------------------
  // processLines: the three fields

  const BOLD_END := "</b>"

  const POP_ANCHOR := "Estimated zip code population in 2016:"
  /** `char zip_pop_end_copy[10]`. */
  const POP_BUF: nat := 10
  /** The characters at the line's end the population copy leaves out. */
  const POP_TAIL: nat := 5

  const INCOME_ANCHOR := "Estimated median household income in 2016:"
  const THIS_ZIP := "This zip code:"
  const PARA_END := "</p>"
  const CELL_END := "</td>"
  /** `char median_income_str[16]`. */
  const INCOME_BUF: nat := 16

  const FOREIGN_ANCHOR := "Foreign born population:"
  /** `char fb_out[10]`. */
  const FOREIGN_BUF: nat := 10

  /** Where the population value is looked for on a line with the anchor:
      every marker must be there (the code dereferences what `strstr`
      returns), the copy length `strlen(zip_pop_end) - 5` must not wrap
      around, and the copy must leave a NUL in its 10-byte buffer. */
  predicate PopulationOk(line: seq<char>)
  {
    match FindFrom(line, POP_ANCHOR, 0)
    case None => true
    case Some(a) =>
      match FindFrom(line, BOLD_END, a)
      case None => false
      case Some(b) =>
        match FindFrom(line, " ", b)
        case None => false
        case Some(e) => e + POP_TAIL <= |line| && |line| - POP_TAIL - e < POP_BUF
  }

  /** The anchor at `a`, the first `</b>` from there at `b`, the first space
      from there at `e`, and at least 5 characters left after it. */
  ghost predicate PopulationAt(line: seq<char>, a: int, b: int, e: int)
  {
    IsFirst(line, POP_ANCHOR, 0, a) && IsFirst(line, BOLD_END, a, b) && IsFirst(line, " ", b, e)
    && e + POP_TAIL <= |line|
  }

  /** The population: from the first space after the first `</b>` after the
      anchor, to 5 characters before the line's end, spaces trimmed off both
      ends. `None` on a line without the anchor. */
  function Population(line: seq<char>): (r: Option<seq<char>>)
    requires PopulationOk(line)
    ensures r.Some? <==> ContainsFrom(line, POP_ANCHOR, 0)
    ensures r.Some? ==> exists a, b, e ::
      PopulationAt(line, a, b, e) && IsTrimOf(line[e..|line| - POP_TAIL], r.value)
    ensures r.Some? ==> |r.value| < POP_BUF - 1
  {
    match FindFrom(line, POP_ANCHOR, 0)
    case None => None
    case Some(a) =>
      var b := FindFrom(line, BOLD_END, a).value;
      var e := FindFrom(line, " ", b).value;
      var slice := line[e..|line| - POP_TAIL];
      assert Occurs(line, " ", e);
      assert line[e] == line[e..e + 1][0] == ' ';
      assert slice != [] ==> slice[0] == ' ';
      var v := Trim(slice);
      assert PopulationAt(line, a, b, e);
      Some(v)
  }

  /** Where the median income is looked for on a line with the anchor: the
      markers must be there and the copy must leave a NUL in its 16-byte
      buffer. */
  predicate IncomeOk(line: seq<char>)
  {
    match FindFrom(line, INCOME_ANCHOR, 0)
    case None => true
    case Some(a) =>
      match FindFrom(line, THIS_ZIP, a)
      case None => false
      case Some(t) =>
        match FindFrom(line, PARA_END, t)
        case None => false
        case Some(p) =>
          p + |PARA_END| <= |line|
          && match FindFrom(line, CELL_END, p + |PARA_END|)
             case None => false
             case Some(d) => d - (p + |PARA_END|) < INCOME_BUF
  }

  /** The anchor at `a`, then the first `This zip code:` at `t`, the first
      `</p>` at `p` and, past it, the first `</td>` at `d`. */
  ghost predicate IncomeAt(line: seq<char>, a: int, t: int, p: int, d: int)
  {
    IsFirst(line, INCOME_ANCHOR, 0, a) && IsFirst(line, THIS_ZIP, a, t)
    && IsFirst(line, PARA_END, t, p) && IsFirst(line, CELL_END, p + |PARA_END|, d)
  }

  /** The median household income: the text after the first `</p>` that
      follows the first `This zip code:` after the anchor, up to the next
      `</td>`. `None` on a line without the anchor. */
  function MedianIncome(line: seq<char>): (r: Option<seq<char>>)
    requires IncomeOk(line)
    ensures r.Some? <==> ContainsFrom(line, INCOME_ANCHOR, 0)
    ensures r.Some? ==> exists a, t, p, d ::
      IncomeAt(line, a, t, p, d) && r.value == line[p + |PARA_END|..d]
    ensures r.Some? ==> |r.value| < INCOME_BUF
  {
    match FindFrom(line, INCOME_ANCHOR, 0)
    case None => None
    case Some(a) =>
      var t := FindFrom(line, THIS_ZIP, a).value;
      var p := FindFrom(line, PARA_END, t).value;
      var d := FindFrom(line, CELL_END, p + |PARA_END|).value;
      assert IncomeAt(line, a, t, p, d);
      Some(line[p + |PARA_END|..d])
  }

  /** Where the foreign-born value is looked for on a line with the anchor:
      the markers must be there and the copy, `(` included, must leave a NUL
      in its 10-byte buffer. */
  predicate ForeignOk(line: seq<char>)
  {
    match FindFrom(line, FOREIGN_ANCHOR, 0)
    case None => true
    case Some(f) =>
      match FindFrom(line, BOLD_END, f)
      case None => false
      case Some(b) =>
        match FindFrom(line, "(", b)
        case None => false
        case Some(o) =>
          match FindFrom(line, ")", o)
          case None => false
          case Some(c) => c - o < FOREIGN_BUF
  }

  /** The anchor at `f`, then the first `</b>` at `b`, the first `(` at `o`
      and the first `)` from there at `c`. */
  ghost predicate ForeignAt(line: seq<char>, f: int, b: int, o: int, c: int)
  {
    IsFirst(line, FOREIGN_ANCHOR, 0, f) && IsFirst(line, BOLD_END, f, b)
    && IsFirst(line, "(", b, o) && IsFirst(line, ")", o, c)
  }

  /** The foreign-born population: the text strictly between the first `(`
      after the first `</b>` after the anchor and the next `)`. `None` on a
      line without the anchor. */
  function ForeignBorn(line: seq<char>): (r: Option<seq<char>>)
    requires ForeignOk(line)
    ensures r.Some? <==> ContainsFrom(line, FOREIGN_ANCHOR, 0)
    ensures r.Some? ==> exists f, b, o, c ::
      ForeignAt(line, f, b, o, c) && o < c && r.value == line[o + 1..c]
    ensures r.Some? ==> NoneIn(r.value, {')'}) && |r.value| < FOREIGN_BUF - 1
  {
    match FindFrom(line, FOREIGN_ANCHOR, 0)
    case None => None
    case Some(f) =>
      var b := FindFrom(line, BOLD_END, f).value;
      var o := FindFrom(line, "(", b).value;
      var c := FindFrom(line, ")", o).value;
      assert line[o..o + 1] == "(";
      assert ForeignAt(line, f, b, o, c);
      SkippedDiffer(line, ')', o, c);
      var v := line[o + 1..c];
      Some(v)
  }

  // ---------------------------------------------------------------------
  // processLines

  datatype Kind = PopulationField | IncomeField | ForeignBornField

  /** One value `processLines` prints. */
  datatype Field = Field(kind: Kind, text: seq<char>)

  /** Order of the three checks within a line. */
  function Rank(k: Kind): nat
  {
    match k
    case PopulationField => 0
    case IncomeField => 1
    case ForeignBornField => 2
  }

  /** What `processLines` needs of one line: each anchor present brings its
      markers and fits its buffer. */
  predicate LineOk(line: seq<char>)
  {
    PopulationOk(line) && IncomeOk(line) && ForeignOk(line)
  }

  function FieldIf(k: Kind, v: Option<seq<char>>): seq<Field>
  {
    if v.Some? then [Field(k, v.value)] else []
  }

  /** How many of the three values are present. */
  function Count(p: Option<seq<char>>, m: Option<seq<char>>, f: Option<seq<char>>): nat
  {
    (if p.Some? then 1 else 0) + (if m.Some? then 1 else 0) + (if f.Some? then 1 else 0)
  }

  /** The value of kind `k` among the three. */
  function Pick(k: Kind, p: Option<seq<char>>, m: Option<seq<char>>, f: Option<seq<char>>): Option<seq<char>>
  {
    match k
    case PopulationField => p
    case IncomeField => m
    case ForeignBornField => f
  }

  /** The values present, in the order of the three checks. */
  function Collect(p: Option<seq<char>>, m: Option<seq<char>>, f: Option<seq<char>>): (r: seq<Field>)
    ensures |r| == Count(p, m, f)
    ensures forall i :: 0 <= i < |r| ==> Pick(r[i].kind, p, m, f) == Some(r[i].text)
    ensures forall i :: 0 <= i < |r| - 1 ==> Rank(r[i].kind) < Rank(r[i + 1].kind)
  {
    FieldIf(PopulationField, p) + FieldIf(IncomeField, m) + FieldIf(ForeignBornField, f)
  }

  /** The value of one field on a line, `None` when its anchor is absent. */
  function Value(line: seq<char>, k: Kind): Option<seq<char>>
    requires LineOk(line)
  {
    Pick(k, Population(line), MedianIncome(line), ForeignBorn(line))
  }

  /** How many of the three anchors the line holds. */
  function Present(line: seq<char>): nat
    requires LineOk(line)
  {
    Count(Population(line), MedianIncome(line), ForeignBorn(line))
  }

  /** The values one line yields. The three anchors are checked
      independently: every value is its field's value on the line, no field
      comes twice, the order is population, income, foreign-born, and there
      are as many values as anchors present, so each present anchor gives
      exactly one. */
  function LineFields(line: seq<char>): (r: seq<Field>)
    requires LineOk(line)
    ensures |r| == Present(line)
    ensures forall i :: 0 <= i < |r| ==> Value(line, r[i].kind) == Some(r[i].text)
    ensures forall i :: 0 <= i < |r| - 1 ==> Rank(r[i].kind) < Rank(r[i + 1].kind)
  {
    Collect(Population(line), MedianIncome(line), ForeignBorn(line))
  }

  predicate PageOk(page: seq<char>)
  {
    forall k :: 0 <= k < |Tokens(page, {'\n'})| ==> LineOk(Tokens(page, {'\n'})[k])
  }

  /** The values of several lines, line after line; each line yields at most
      three. */
  function LinesFields(lines: seq<seq<char>>): (r: seq<Field>)
    requires forall k :: 0 <= k < |lines| ==> LineOk(lines[k])
    ensures |r| <= 3 * |lines|
  {
    var parts := Map(lines, LineFields);
    FlattenBound(parts, 3);
    Flatten(parts)
  }

  lemma LinesFieldsAppend(a: seq<seq<char>>, b: seq<seq<char>>)
    requires forall k :: 0 <= k < |a| ==> LineOk(a[k])
    requires forall k :: 0 <= k < |b| ==> LineOk(b[k])
    ensures forall k :: 0 <= k < |a + b| ==> LineOk((a + b)[k])
    ensures LinesFields(a + b) == LinesFields(a) + LinesFields(b)
  {
    MapAppend(a, b, LineFields);
    FlattenAppend(Map(a, LineFields), Map(b, LineFields));
  }

  /** `processLines(memory)`: the values of every newline-separated line of
      the page, line after line. */
  function ProcessLines(page: seq<char>): (r: seq<Field>)
    requires PageOk(page)
    ensures |r| <= 3 * |Tokens(page, {'\n'})|
  {
    LinesFields(Tokens(page, {'\n'}))
  }

  /** The empty line holds no anchor, so it yields no value. */
  lemma EmptyLineFields()
    ensures LineOk([]) && LineFields([]) == []
  {
    assert !ContainsFrom([], POP_ANCHOR, 0);
    assert !ContainsFrom([], INCOME_ANCHOR, 0);
    assert !ContainsFrom([], FOREIGN_ANCHOR, 0);
  }

  /** A single line's values are that line's. */
  lemma SingleLineFields(line: seq<char>)
    requires LineOk(line)
    ensures LinesFields([line]) == LineFields(line)
  {
    FlattenMapSingle(line, LineFields);
  }

  /** A page without a newline is one line: its values are that line's. */
  lemma ProcessLinesOneLine(line: seq<char>)
    requires NoneIn(line, {'\n'}) && LineOk(line)
    ensures PageOk(line)
    ensures ProcessLines(line) == LineFields(line)
  {
    TokensPlain(line, {'\n'});
    if line == [] {
      EmptyLineFields();
    } else {
      SingleLineFields(line);
    }
  }

  /** Lines are processed independently and in document order: the values
      of two texts joined by a newline are those of the first, then those of
      the second. */
  lemma ProcessLinesAround(a: seq<char>, b: seq<char>)
    requires PageOk(a) && PageOk(b)
    ensures PageOk(a + ['\n'] + b)
    ensures ProcessLines(a + ['\n'] + b) == ProcessLines(a) + ProcessLines(b)
  {
    TokensAround(a, '\n', b, {'\n'});
    LinesFieldsAppend(Tokens(a, {'\n'}), Tokens(b, {'\n'}));
  }

  // ---------------------------------------------------------------------
  // The fetch loop of main

  /** What one code needs for its turn of the loop: its URL fits, and the
      page `fetch` returns for that URL meets the extractors' needs. `fetch`
      stands for libcurl: the blocks the server sends for a URL. */
  predicate CodeOk(code: seq<char>, fetch: seq<char> -> seq<seq<char>>)
  {
    && |BASE_URL| + |code| + |URL_SUFFIX| < URL_BUF
    && |Flatten(fetch(CodeUrl(code)))| + 1 <= Buffer.SIZE_MAX
    && PageOk(Buffer.Download(fetch(CodeUrl(code))))
  }

  function Reports(codes: seq<seq<char>>, fetch: seq<char> -> seq<seq<char>>): (r: seq<seq<Field>>)
    requires forall k :: 0 <= k < |codes| ==> CodeOk(codes[k], fetch)
    ensures |r| == |codes|
    ensures forall k :: 0 <= k < |codes| ==>
      CodeOk(codes[k], fetch) && r[k] == ProcessLines(Buffer.Download(fetch(CodeUrl(codes[k]))))
  {
    seq(|codes|, k requires 0 <= k < |codes| && CodeOk(codes[k], fetch) =>
      ProcessLines(Buffer.Download(fetch(CodeUrl(codes[k])))))
  }

  /** `main` end to end: one report per word of the file, in file order,
      each the values read from the page of that word's URL. */
  function Report(text: seq<char>, fetch: seq<char> -> seq<seq<char>>): (r: seq<seq<Field>>)
    requires WordsFit(text)
    requires forall k :: 0 <= k < |Tokens(text, WHITESPACE)| ==> CodeOk(Tokens(text, WHITESPACE)[k], fetch)
    ensures var words := Tokens(text, WHITESPACE);
      && |r| == |words|
      && forall k :: 0 <= k < |words| ==>
           && CodeOk(words[k], fetch)
           && r[k] == ProcessLines(Buffer.Download(fetch(BASE_URL + words[k] + URL_SUFFIX)))
  {
    VisitsEveryWord(text);
    var words := Tokens(text, WHITESPACE);
    assert forall k :: 0 <= k < |words| ==> CodeUrl(words[k]) == BASE_URL + words[k] + URL_SUFFIX;
    Reports(Visited(LoadList(text)), fetch)
  }
}
