/** The zip-code harvester (src/get-zip-codes.c): per county, the page URL,
    the zip codes scraped from the page's statistics table, and the CSV rows
    written for them. */
module ZipHarvest {
  import opened CStrings
  import opened CountyList
  import Buffer

  const BASE_URL := "https://www.zip-codes.com/county/"
  const URL_SUFFIX := ".asp"
  /** `calloc(128, sizeof(char))` for the URL. */
  const URL_BUF: nat := 128

  /** The marker of the line holding the table of zip codes. */
  const STAT_TABLE := "class=\"statTable\""
  /** What precedes each zip code in that line. */
  const ZIP_TITLE := "title=\"ZIP Code "
  /** A code is the 5 characters after `ZIP_TITLE` ... */
  const CODE_LEN: nat := 5
  /** ... and the search resumes right after them. */
  const RESUME: nat := 21
  /** `char code[8]`. */
  const CODE_BUF: nat := 8

  // ---------------------------------------------------------------------
  // buildUrl

  /** The county as `buildUrl` leaves it: every space rewritten in place to a
      dash, every other character kept. */
  function Dashify(county: seq<char>): (r: seq<char>)
    ensures |r| == |county|
    ensures forall i :: 0 <= i < |r| ==> r[i] == (if county[i] == ' ' then '-' else county[i])
    decreases |county|
  {
    if county == [] then []
    else [if county[0] == ' ' then '-' else county[0]] + Dashify(county[1..])
  }

  /** Dashing is done once and for all: no space is left, and a second pass
      changes nothing. */
  lemma DashifyIdempotent(county: seq<char>)
    ensures NoneIn(Dashify(county), {' '})
    ensures Dashify(Dashify(county)) == Dashify(county)
  {
  }

  /** What `buildUrl` returns, and the county it leaves behind in the caller's
      node. */
  datatype BuiltUrl = BuiltUrl(url: seq<char>, county: seq<char>)

  /** The characters `buildUrl` writes before the terminating NUL. */
  function UrlLength(state: seq<char>, county: seq<char>): nat
  {
    |BASE_URL| + |state| + 1 + |county| + |URL_SUFFIX|
  }

  /** `buildUrl(state, county)`: the page of one county, with the county's
      spaces turned into dashes. The result must leave room for its NUL in
      the 128 bytes allocated. */
  function BuildUrl(state: seq<char>, county: seq<char>): (r: BuiltUrl)
    requires UrlLength(state, county) < URL_BUF
    ensures r.county == Dashify(county)
    ensures r.url == BASE_URL + state + "-" + r.county + URL_SUFFIX
    ensures |r.url| < URL_BUF
  {
    var dashed := Dashify(county);
    BuiltUrl(BASE_URL + state + "-" + dashed + URL_SUFFIX, dashed)
  }

  /** Any node of the county list fits: at most 7 + 63 characters of state
      and county leave the URL well inside its buffer. */
  lemma ListedCountyUrlFits(c: County)
    requires |c.state| < STATE_BUF && |c.county| < COUNTY_BUF
    ensures UrlLength(c.state, c.county) < URL_BUF
  {
  }

  /** Building the URL a second time from the rewritten county gives the same
      URL and leaves the county as it is. */
  lemma BuildUrlStable(state: seq<char>, county: seq<char>)
    requires UrlLength(state, county) < URL_BUF
    ensures var b := BuildUrl(state, county);
      BuildUrl(state, b.county) == b
  {
    DashifyIdempotent(county);
  }

  // ---------------------------------------------------------------------
  // processChunk

  /** What `processChunk` needs of every title at or after `from` in a line:
      the 5 code characters after it lie within the line, so that the code
      is complete and the resumed search does not run past the line's end. */
  predicate TitlesComplete(line: seq<char>, from: nat)
    requires from <= |line|
    decreases |line| - from
  {
    match FindFrom(line, ZIP_TITLE, from)
    case None => true
    case Some(p) => p + RESUME <= |line| && TitlesComplete(line, p + RESUME)
  }

  /** The positions of the titles the inner loop of `processChunk` stops at,
      searching from `from` and resuming 21 characters past each. */
  function TitleHits(line: seq<char>, from: nat): (r: seq<nat>)
    requires from <= |line| && TitlesComplete(line, from)
    ensures forall k :: 0 <= k < |r| ==> from <= r[k] && Occurs(line, ZIP_TITLE, r[k]) && r[k] + RESUME <= |line|
    ensures Spaced(r)
    decreases |line| - from
  {
    match FindFrom(line, ZIP_TITLE, from)
    case None => []
    case Some(p) => [p] + TitleHits(line, p + RESUME)
  }

  /** Each hit starts at least 21 characters after the one before. */
  predicate Spaced(hits: seq<nat>)
  {
    forall i, j :: 0 <= i < j < |hits| ==> hits[i] + RESUME <= hits[j]
  }

  /** Occurrence `q` lies inside the 21 characters one of the hits consumes. */
  ghost predicate Covered(hits: seq<nat>, q: int)
  {
    exists k :: 0 <= k < |hits| && hits[k] <= q < hits[k] + RESUME
  }

  /** Where titles start in a line. */
  ghost function Titles(line: seq<char>): set<int>
  {
    set q | 0 <= q <= |line| && Occurs(line, ZIP_TITLE, q)
  }

  /** Soundness and completeness of hits against a set `occ` of occurrences:
      ascending, each an occurrence at or after `from`, and every occurrence
      at or after `from` is a hit or lies inside the 21 characters a hit
      consumes. */
  ghost predicate SpecOver(occ: set<int>, from: nat, hits: seq<nat>)
  {
    && (forall k :: 0 <= k < |hits| ==> from <= hits[k] && hits[k] in occ)
    && Spaced(hits)
    && (forall q {:trigger Covered(hits, q)} :: q in occ && from <= q ==> Covered(hits, q))
  }

  /** The hits `processChunk` should find in a line searching from `from`. */
  ghost predicate HitsSpec(line: seq<char>, from: nat, hits: seq<nat>)
  {
    SpecOver(Titles(line), from, hits)
  }

  /** An occurrence at or after `from` means the search finds a first title
      no later than it, and the hits start there. */
  lemma FirstTitle(line: seq<char>, from: nat, q: int) returns (p: nat)
    requires from <= |line| && TitlesComplete(line, from)
    requires from <= q && Occurs(line, ZIP_TITLE, q)
    ensures p <= q && p + RESUME <= |line|
    ensures TitlesComplete(line, p + RESUME)
    ensures TitleHits(line, from) == [p] + TitleHits(line, p + RESUME)
  {
    assert ContainsFrom(line, ZIP_TITLE, from);
    p := FindFrom(line, ZIP_TITLE, from).value;
    assert IsFirst(line, ZIP_TITLE, from, p);
  }

  /** A hit list covers what its tail covers. */
  lemma CoveredCons(p: nat, rest: seq<nat>, q: int)
    requires Covered(rest, q)
    ensures Covered([p] + rest, q)
  {
    var k :| 0 <= k < |rest| && rest[k] <= q < rest[k] + RESUME;
    assert ([p] + rest)[k + 1] == rest[k];
  }

  lemma {:induction false} TitleHitsComplete(line: seq<char>, from: nat, q: int)
    requires from <= |line| && TitlesComplete(line, from)
    requires from <= q && Occurs(line, ZIP_TITLE, q)
    ensures Covered(TitleHits(line, from), q)
    decreases |line| - from
  {
    var p := FirstTitle(line, from, q);
    var rest := TitleHits(line, p + RESUME);
    if q < p + RESUME {
      assert ([p] + rest)[0] <= q < ([p] + rest)[0] + RESUME;
    } else {
      TitleHitsComplete(line, p + RESUME, q);
      CoveredCons(p, rest, q);
    }
  }

  lemma TitleHitsMeetSpec(line: seq<char>, from: nat)
    requires from <= |line| && TitlesComplete(line, from)
    ensures HitsSpec(line, from, TitleHits(line, from))
  {
    var hits := TitleHits(line, from);
    forall k | 0 <= k < |hits|
      ensures hits[k] in Titles(line)
    {
    }
    forall q | q in Titles(line) && from <= q
      ensures Covered(hits, q)
    {
      TitleHitsComplete(line, from, q);
    }
  }

  /** A hit sequence that covers `q` starts at or before it. */
  lemma CoveredAfterFirst(hits: seq<nat>, q: int)
    requires Spaced(hits) && Covered(hits, q)
    ensures hits[0] <= q
  {
  }

  /** An empty hit list covers no occurrence. */
  lemma NothingCovered(q: int)
    ensures !Covered([], q)
  {
  }

  /** No hit means no occurrence at or after `from`, so no other hit
      sequence meeting the specification has one either. */
  lemma NoHitsNoTitles(occ: set<int>, from: nat, h1: seq<nat>, h2: seq<nat>)
    requires SpecOver(occ, from, h1) && SpecOver(occ, from, h2) && h1 == []
    ensures h2 == []
  {
    if h2 != [] {
      NothingCovered(h2[0]);
      assert false;
    }
  }

  /** Two hit sequences meeting the specification start at the same title. */
  lemma SameFirst(occ: set<int>, from: nat, h1: seq<nat>, h2: seq<nat>)
    requires SpecOver(occ, from, h1) && SpecOver(occ, from, h2) && h1 != [] && h2 != []
    ensures h1[0] == h2[0]
  {
    CoveredAfterFirst(h2, h1[0]);
    CoveredAfterFirst(h1, h2[0]);
  }

  /** The specification leaves no choice: two hit sequences meeting it are
      the same. */
  lemma {:induction false} HitsUnique(occ: set<int>, from: nat, h1: seq<nat>, h2: seq<nat>)
    requires SpecOver(occ, from, h1) && SpecOver(occ, from, h2)
    ensures h1 == h2
    decreases |h1|
  {
    if h1 == [] {
      NoHitsNoTitles(occ, from, h1, h2);
    } else if h2 == [] {
      NoHitsNoTitles(occ, from, h2, h1);
    } else {
      SameFirst(occ, from, h1, h2);
      TailSpec(occ, from, h1);
      TailSpec(occ, from, h2);
      HitsUnique(occ, h1[0] + RESUME, h1[1..], h2[1..]);
      assert h1 == [h1[0]] + h1[1..];
      assert h2 == [h2[0]] + h2[1..];
    }
  }

  /** An occurrence past the first hit's 21 characters is covered by the
      hits after it. */
  lemma CoveredTail(hits: seq<nat>, q: int)
    requires hits != [] && Covered(hits, q) && hits[0] + RESUME <= q
    ensures Covered(hits[1..], q)
  {
  }

  /** After the first hit, the rest meet the specification from 21
      characters past it. */
  lemma TailSpec(occ: set<int>, from: nat, hits: seq<nat>)
    requires SpecOver(occ, from, hits) && hits != []
    ensures SpecOver(occ, hits[0] + RESUME, hits[1..])
  {
    var p := hits[0];
    var tail := hits[1..];
    forall k | 0 <= k < |tail|
      ensures p + RESUME <= tail[k] && tail[k] in occ
    {
      assert tail[k] == hits[k + 1];
    }
    forall i, j | 0 <= i < j < |tail|
      ensures tail[i] + RESUME <= tail[j]
    {
      assert tail[i] == hits[i + 1] && tail[j] == hits[j + 1];
    }
    forall q | q in occ && p + RESUME <= q
      ensures Covered(tail, q)
    {
      CoveredTail(hits, q);
    }
  }

  /** The title positions `processChunk` stops at are the only ones meeting
      the specification. */
  lemma TitleHitsExactly(line: seq<char>, from: nat, hits: seq<nat>)
    requires from <= |line| && TitlesComplete(line, from)
    requires HitsSpec(line, from, hits)
    ensures hits == TitleHits(line, from)
  {
    TitleHitsMeetSpec(line, from);
    HitsUnique(Titles(line), from, hits, TitleHits(line, from));
  }

  /** Where the zip-code table starts in a line, if the line holds it. */
  function TableStart(line: seq<char>): Option<nat>
  {
    FindFrom(line, STAT_TABLE, 0)
  }

  /** What `processChunk` needs of one line: complete titles after its table
      marker. Lines without the marker are never searched. */
  predicate Harvestable(line: seq<char>)
  {
    match TableStart(line)
    case None => true
    case Some(m) => TitlesComplete(line, m)
  }

  /** The codes read at the given title positions. */
  function CodesAt(line: seq<char>, hits: seq<nat>): (r: seq<seq<char>>)
    requires forall k :: 0 <= k < |hits| ==> hits[k] + RESUME <= |line|
    ensures |r| == |hits|
    ensures forall k :: 0 <= k < |r| ==> r[k] == line[hits[k] + |ZIP_TITLE|..hits[k] + RESUME]
  {
    seq(|hits|, k requires 0 <= k < |hits| => line[hits[k] + |ZIP_TITLE|..hits[k] + RESUME])
  }

  /** The codes one line yields: none without the table marker; otherwise
      the 5 characters after each title met searching from the marker on. */
  function LineCodes(line: seq<char>): (r: seq<seq<char>>)
    requires Harvestable(line)
    ensures TableStart(line).None? ==> r == []
    ensures forall k :: 0 <= k < |r| ==> |r[k]| == CODE_LEN
    ensures TableStart(line).Some? ==> r == CodesAt(line, TitleHits(line, TableStart(line).value))
  {
    match TableStart(line)
    case None => []
    case Some(m) => CodesAt(line, TitleHits(line, m))
  }

  predicate PageHarvestable(page: seq<char>)
  {
    forall line :: line in Tokens(page, {'\n'}) ==> Harvestable(line)
  }

  /** Codes of several lines, in line order. */
  function LinesCodes(lines: seq<seq<char>>): (r: seq<seq<char>>)
    requires forall k :: 0 <= k < |lines| ==> Harvestable(lines[k])
    ensures forall k :: 0 <= k < |r| ==> |r[k]| == CODE_LEN
    decreases |lines|
  {
    if lines == [] then [] else LineCodes(lines[0]) + LinesCodes(lines[1..])
  }

  /** Every code the page yields, in document order. */
  function PageCodes(page: seq<char>): (r: seq<seq<char>>)
    requires PageHarvestable(page)
    ensures forall k :: 0 <= k < |r| ==> |r[k]| == CODE_LEN
  {
    LinesCodes(Tokens(page, {'\n'}))
  }

  lemma {:induction false} LinesCodesAppend(a: seq<seq<char>>, b: seq<seq<char>>)
    requires forall k :: 0 <= k < |a| ==> Harvestable(a[k])
    requires forall k :: 0 <= k < |b| ==> Harvestable(b[k])
    ensures LinesCodes(a + b) == LinesCodes(a) + LinesCodes(b)
    decreases |a|
  {
    if a == [] {
      assert a + b == b;
    } else {
      assert (a + b)[1..] == a[1..] + b;
      LinesCodesAppend(a[1..], b);
    }
  }

  /** Lines are harvested independently and in document order: the codes of
      two texts joined by a newline are the codes of the first followed by
      those of the second. */
  lemma PageCodesAround(a: seq<char>, b: seq<char>)
    requires PageHarvestable(a) && PageHarvestable(b)
    ensures PageHarvestable(a + ['\n'] + b)
    ensures PageCodes(a + ['\n'] + b) == PageCodes(a) + PageCodes(b)
  {
    TokensAround(a, '\n', b, {'\n'});
    LinesCodesAppend(Tokens(a, {'\n'}), Tokens(b, {'\n'}));
  }

  /** A page without a newline is one line: its codes are that line's. */
  lemma PageCodesOneLine(line: seq<char>)
    requires NoneIn(line, {'\n'}) && Harvestable(line)
    ensures PageHarvestable(line)
    ensures PageCodes(line) == LineCodes(line)
  {
    TokensPlain(line, {'\n'});
    if line == [] {
      assert !ContainsFrom(line, STAT_TABLE, 0);
    } else {
      assert [line][1..] == [];
      assert LinesCodes([line]) == LineCodes(line) + LinesCodes([]);
    }
  }

  /** One node of the zip-code list. */
  datatype ZipNode = ZipNode(state: seq<char>, county: seq<char>, code: seq<char>)

  /** The zeroed node that closes the list. */
  const Empty := ZipNode([], [], [])

  function Nodes(codes: seq<seq<char>>, state: seq<char>, county: seq<char>): (r: seq<ZipNode>)
    ensures |r| == |codes|
    ensures forall k :: 0 <= k < |r| ==> r[k] == ZipNode(state, county, codes[k])
  {
    seq(|codes|, k requires 0 <= k < |codes| => ZipNode(state, county, codes[k]))
  }

  /** `processChunk(memory, state, county, zipHead)`: one node per code found,
      in document order, each carrying the county's state and county as
      given, then the zeroed node. The state and county must fit the node's
      buffers. */
  function ProcessChunk(page: seq<char>, state: seq<char>, county: seq<char>): (r: seq<ZipNode>)
    requires PageHarvestable(page)
    requires |state| < STATE_BUF && |county| < COUNTY_BUF
    ensures |r| == |PageCodes(page)| + 1
    ensures r[|r| - 1] == Empty
    ensures forall k :: 0 <= k < |r| - 1 ==>
      r[k] == ZipNode(state, county, PageCodes(page)[k]) && 0 < |r[k].code| < CODE_BUF
  {
    Nodes(PageCodes(page), state, county) + [Empty]
  }

  // ---------------------------------------------------------------------
  // Output

  /** `"state","county","code"` and a newline: the three fields and nine
      characters of quotes, commas and newline. */
  function CsvRow(n: ZipNode): (row: seq<char>)
    ensures |row| == |n.state| + |n.county| + |n.code| + 9
  {
    "\"" + n.state + "\",\"" + n.county + "\",\"" + n.code + "\"\n"
  }

  /** With no quote inside a field, cutting a row at its quotes gives the
      node's fields back between the separators, so a row names its node. */
  lemma CsvRowSplits(n: ZipNode)
    requires NoneIn(n.state, {'"'}) && NoneIn(n.county, {'"'}) && NoneIn(n.code, {'"'})
    ensures Split(CsvRow(n), {'"'}) == [[], n.state, ",", n.county, ",", n.code, "\n"]
  {
    var p6: seq<seq<char>> := ["\n"];
    var p5 := [n.code] + p6;
    var p4 := [","] + p5;
    var p3 := [n.county] + p4;
    var p2 := [","] + p3;
    var p1 := [n.state] + p2;
    var parts := [[]] + p1;
    JoinCons(n.code, p6, '"');
    JoinCons(",", p5, '"');
    JoinCons(n.county, p4, '"');
    JoinCons(",", p3, '"');
    JoinCons(n.state, p2, '"');
    JoinCons([], p1, '"');
    assert Join(parts, '"') == CsvRow(n);
    SplitJoin(parts, '"');
  }

  /** The rows the output loop of `main` writes for one county's list: one
      per node with a non-empty code, in list order. */
  function CsvRows(nodes: seq<ZipNode>): (rows: seq<seq<char>>)
    ensures |rows| <= |nodes|
    ensures forall row :: row in rows ==> exists n :: n in nodes && n.code != [] && row == CsvRow(n)
    decreases |nodes|
  {
    if nodes == [] then []
    else (if nodes[0].code != [] then [CsvRow(nodes[0])] else []) + CsvRows(nodes[1..])
  }

  lemma {:induction false} CsvRowsOfNodes(codes: seq<seq<char>>, state: seq<char>, county: seq<char>)
    requires forall k :: 0 <= k < |codes| ==> codes[k] != []
    ensures CsvRows(Nodes(codes, state, county) + [Empty])
         == seq(|codes|, k requires 0 <= k < |codes| => CsvRow(ZipNode(state, county, codes[k])))
    decreases |codes|
  {
    var nodes := Nodes(codes, state, county) + [Empty];
    if codes == [] {
      assert nodes == [Empty];
    } else {
      CsvRowsOfNodes(codes[1..], state, county);
      assert nodes[1..] == Nodes(codes[1..], state, county) + [Empty];
    }
  }

  /** A county's list gives exactly one row per code found on its page, in
      document order; the closing node gives none. */
  lemma RowPerCode(page: seq<char>, state: seq<char>, county: seq<char>)
    requires PageHarvestable(page)
    requires |state| < STATE_BUF && |county| < COUNTY_BUF
    ensures var codes := PageCodes(page);
      CsvRows(ProcessChunk(page, state, county))
        == seq(|codes|, k requires 0 <= k < |codes| => CsvRow(ZipNode(state, county, codes[k])))
  {
    CsvRowsOfNodes(PageCodes(page), state, county);
  }

  // ---------------------------------------------------------------------
  // The loop of main

  /** Whether a server response can be downloaded and harvested. */
  predicate ResponseOk(blocks: seq<seq<char>>)
  {
    |Flatten(blocks)| + 1 <= Buffer.SIZE_MAX && PageHarvestable(Buffer.Download(blocks))
  }

  /** What the harvester needs of one county: fields that fit the node, and
      a response that can be downloaded and harvested. */
  predicate CountyOk(c: County, fetch: seq<char> -> seq<seq<char>>)
  {
    |c.state| < STATE_BUF && |c.county| < COUNTY_BUF
    && ResponseOk(fetch(BuildUrl(c.state, c.county).url))
  }

  /** The codes found on one county's page. `fetch` stands for libcurl: the
      blocks the server sends for a URL. */
  function CountyCodes(c: County, fetch: seq<char> -> seq<seq<char>>): seq<seq<char>>
    requires CountyOk(c, fetch)
  {
    PageCodes(Buffer.Download(fetch(BuildUrl(c.state, c.county).url)))
  }

  /** The rows written for one county. `buildUrl` rewrites the county in the
      list node it is given, and that node is what `getUrl` passes on, so the
      rows carry the dashed county. */
  function CountyRows(c: County, fetch: seq<char> -> seq<seq<char>>): (rows: seq<seq<char>>)
    requires CountyOk(c, fetch)
    ensures var codes := CountyCodes(c, fetch);
      rows == seq(|codes|, k requires 0 <= k < |codes| => CsvRow(ZipNode(c.state, Dashify(c.county), codes[k])))
  {
    var b := BuildUrl(c.state, c.county);
    RowPerCode(Buffer.Download(fetch(b.url)), c.state, b.county);
    CsvRows(ProcessChunk(Buffer.Download(fetch(b.url)), c.state, b.county))
  }

  /** `CountyRows` as a function value, defined on the harvestable counties. */
  function RowsFor(fetch: seq<char> -> seq<seq<char>>): County --> seq<seq<char>>
  {
    c requires CountyOk(c, fetch) => CountyRows(c, fetch)
  }

  /** The rows `main` writes for the visited counties, county by county. */
  function Run(counties: seq<County>, fetch: seq<char> -> seq<seq<char>>): (rows: seq<seq<char>>)
    requires forall k :: 0 <= k < |counties| ==> CountyOk(counties[k], fetch)
  {
    Flatten(Map(counties, RowsFor(fetch)))
  }

  /** No county, no row. */
  lemma RunNone(fetch: seq<char> -> seq<seq<char>>)
    ensures Run([], fetch) == []
  {
    assert Map([], RowsFor(fetch)) == [];
  }

  /** A run over one county writes exactly that county's rows. */
  lemma RunOne(c: County, fetch: seq<char> -> seq<seq<char>>)
    requires CountyOk(c, fetch)
    ensures Run([c], fetch) == CountyRows(c, fetch)
  {
    FlattenMapSingle(c, RowsFor(fetch));
  }

  /** Counties are handled one after the other and independently: the rows
      for two runs of counties are the rows of the first, then of the second. */
  lemma RunAppend(a: seq<County>, b: seq<County>, fetch: seq<char> -> seq<seq<char>>)
    requires forall k :: 0 <= k < |a| ==> CountyOk(a[k], fetch)
    requires forall k :: 0 <= k < |b| ==> CountyOk(b[k], fetch)
    ensures forall k :: 0 <= k < |a + b| ==> CountyOk((a + b)[k], fetch)
    ensures Run(a + b, fetch) == Run(a, fetch) + Run(b, fetch)
  {
    MapAppend(a, b, RowsFor(fetch));
    FlattenAppend(Map(a, RowsFor(fetch)), Map(b, RowsFor(fetch)));
  }

  /** A run writes the first county's rows, then those of the rest. */
  lemma RunCons(counties: seq<County>, fetch: seq<char> -> seq<seq<char>>)
    requires counties != []
    requires forall k :: 0 <= k < |counties| ==> CountyOk(counties[k], fetch)
    ensures Run(counties, fetch) == CountyRows(counties[0], fetch) + Run(counties[1..], fetch)
  {
    FlattenMapCons(counties, RowsFor(fetch));
  }

  /** `row` names the state of the county `c`, that county with its spaces
      dashed, and a code found on that county's page. */
  ghost predicate RowOfCounty(row: seq<char>, c: County, fetch: seq<char> -> seq<seq<char>>)
    requires CountyOk(c, fetch)
  {
    exists j :: 0 <= j < |CountyCodes(c, fetch)|
      && row == CsvRow(ZipNode(c.state, Dashify(c.county), CountyCodes(c, fetch)[j]))
  }

  lemma CountyRowsShape(c: County, fetch: seq<char> -> seq<seq<char>>)
    requires CountyOk(c, fetch)
    ensures forall row :: row in CountyRows(c, fetch) ==> RowOfCounty(row, c, fetch)
  {
    var b := BuildUrl(c.state, c.county);
    var page := Buffer.Download(fetch(b.url));
    RowPerCode(page, c.state, b.county);
    var codes := CountyCodes(c, fetch);
    forall row | row in CountyRows(c, fetch)
      ensures RowOfCounty(row, c, fetch)
    {
      var j :| 0 <= j < |codes| && row == CountyRows(c, fetch)[j];
    }
  }

  /** Every row written belongs to one of the visited counties: its state,
      its county with the spaces dashed, and a code found on its page. */
  lemma {:induction false} RunRows(counties: seq<County>, fetch: seq<char> -> seq<seq<char>>)
    requires forall k :: 0 <= k < |counties| ==> CountyOk(counties[k], fetch)
    ensures forall row :: row in Run(counties, fetch) ==>
      exists i :: 0 <= i < |counties| && RowOfCounty(row, counties[i], fetch)
    decreases |counties|
  {
    if counties != [] {
      RunRows(counties[1..], fetch);
      CountyRowsShape(counties[0], fetch);
      var head, tail := CountyRows(counties[0], fetch), Run(counties[1..], fetch);
      RunCons(counties, fetch);
      forall row | row in head + tail
        ensures exists i :: 0 <= i < |counties| && RowOfCounty(row, counties[i], fetch)
      {
        if row in head {
          assert RowOfCounty(row, counties[0], fetch);
        } else {
          assert row in tail;
          var i :| 0 <= i < |counties| - 1 && RowOfCounty(row, counties[1..][i], fetch);
          assert counties[1..][i] == counties[i + 1];
        }
      }
    }
  }

  /** What the harvester needs of the county file: at least one line, every
      line splittable, and every county `main` visits harvestable. Counties
      after the loop stops are never fetched, so nothing is asked of them. */
  predicate FileOk(text: seq<char>, fetch: seq<char> -> seq<seq<char>>)
  {
    && text != []
    && AllSplittable(ReadLines(text, LINE_BUF))
    && forall k :: 0 <= k < |Visited(LoadList(text))| ==> CountyOk(Visited(LoadList(text))[k], fetch)
  }

  /** The harvester end to end: load the county list from the file, visit
      its counties, write their rows. The visited counties are the first ones
      the file lists, the rows are theirs in file order, and when every line
      names a state and a county that is every county of the file. */
  function ZipCodesCsv(text: seq<char>, fetch: seq<char> -> seq<seq<char>>): (rows: seq<seq<char>>)
    requires FileOk(text, fetch)
    ensures var v := Visited(LoadList(text));
      |v| <= |ParseFile(text)| && v == ParseFile(text)[..|v|]
    ensures var v := Visited(LoadList(text));
      forall row :: row in rows ==> exists i :: 0 <= i < |v| && RowOfCounty(row, v[i], fetch)
    ensures (forall c :: c in ParseFile(text) ==> c.state != [] && c.county != []) ==>
      Visited(LoadList(text)) == ParseFile(text) && rows == Run(ParseFile(text), fetch)
    ensures var v := Visited(LoadList(text)); rows == Run(ParseFile(text)[..|v|], fetch)
  {
    VisitedPrefix(text);
    RunRows(Visited(LoadList(text)), fetch);
    VisitsEveryLine(text);
    Run(Visited(LoadList(text)), fetch)
  }

  /** A first line with an empty state or county stops the loop before any
      fetch: whatever the server would send, nothing is written. */
  lemma EmptyCountyStops(text: seq<char>, fetch: seq<char> -> seq<seq<char>>)
    requires text != [] && AllSplittable(ReadLines(text, LINE_BUF))
    requires ParseFile(text)[0].state == [] || ParseFile(text)[0].county == []
    ensures FileOk(text, fetch) && ZipCodesCsv(text, fetch) == []
  {
    assert LoadList(text)[0] == ParseFile(text)[0];
    assert Visited(LoadList(text)) == [];
    RunNone(fetch);
  }

  // ---------------------------------------------------------------------
  // The INSERT statement

  /** The statement `main` formats with `sprintf` for one node. */
  function InsertStatement(n: ZipNode): (stmt: seq<char>)
    ensures |stmt| == 52 + |n.code| + |n.state| + |n.county|
  {
    "INSERT INTO zip_codes_by_county VALUES ( " + n.code + ", \"" + n.state + "\", \"" + n.county + "\" );"
  }

  /** `char insert_stmt[64]`. */
  const INSERT_BUF_AS_WRITTEN: nat := 64

  /** A seven-letter county already overruns the 64-byte statement buffer. */
  lemma InsertOverrunsBuffer()
    ensures |InsertStatement(ZipNode("AL", "Baldwin", "36507"))| + 1 > INSERT_BUF_AS_WRITTEN
  {
  }

  /** A buffer large enough for the longest state, county and code a node
      can hold. */
  const INSERT_BUF: nat := 130

  lemma InsertFits(n: ZipNode)
    requires |n.state| < STATE_BUF && |n.county| < COUNTY_BUF && |n.code| < CODE_BUF
    ensures |InsertStatement(n)| + 1 <= INSERT_BUF
  {
  }
}
