# zip_codes_c in Dafny

A functional model of the text handling in zip_codes_c, a set of small C
programs that scrape zip-code data:

- **get-zip-codes.c** reads `county-list.csv` and splits every line
  `STATE,County Name\n` at its first comma.
- **src/get-zip-codes.c** (the harvester) loads the same lines into a linked
  list closed by an all-empty node. For each county it builds the
  zip-codes.com URL, which turns spaces in the county into dashes in place.
  It downloads the page through libcurl's `writeCallback`. On each line that
  holds `class="statTable"` it searches for `title="ZIP Code ` from that
  marker on, takes the 5 characters 16 past each title found, and resumes
  the search 21 characters past it, so a title starting inside those 21
  characters is skipped. Each code becomes a (state, county, code) node.
  Then it writes one CSV row `"state","county","code"` per node with a
  non-empty code.
- **read_list.c** (the city-data reader) reads whitespace-separated zip codes
  into a list closed by a NULL-code node. For each code it fetches the
  city-data.com page and prints three values found on the page's lines: the
  estimated population, the median household income and the foreign-born
  population.

C strings are `seq<char>` (the characters before the NUL), and linked lists
are sequences. Each `char` stands for one byte, as in the C code: every
buffer bound (`state[8]`, `county[64]`, the 128- and 64-byte URLs, `code[8]`,
the 10- and 16-byte value copies) counts bytes, so a county such as "Doña
Ana" is 9 elements in the model when its input is UTF-8, not 8. `strstr` is
`FindFrom`, which returns an index and `None` for NULL.
`strtok`/`strtok_r`/`fscanf("%s")` are `Tokens`, `sdstrim` is `Trim`, and a
`fgets` loop is `ReadLines`. The C code dereferences the result of many
`strstr` calls without checking it, and copies into fixed buffers. Every such
call that must succeed, and every such buffer bound, is a `requires` of the
member that models it (`Splittable`, `TitlesComplete`, `PopulationOk`,
`IncomeOk`, `ForeignOk`, `WordsFit`, `CountyOk`, `CodeOk`). libcurl is a
function parameter `fetch` from a URL to the blocks the server sends.

Modules: `CStrings` (the C library primitives), `Buffer` (the response
buffer and `writeCallback`), `CountyList` (line split, county list and its
loop-stop rule), `ZipHarvest` (`buildUrl`, `processChunk`, CSV rows, the
harvester's `main` loop), `CityData` (read_list.c).

A few points about what the code does:

- No field gets a default value, and no text is normalised. For example,
  commas and percent signs stay in the extracted values.
- The SQL statement is formatted with `sprintf`, not bound as parameters.
- The three city-data anchors are searched independently on each line. They
  are not paired through a shared marker.
- The rows carry the county as `buildUrl` left it, with dashes for spaces.
  This is because `main` hands the same, now rewritten, node to `getUrl`.

## Model

| member | source | states |
|---|---|---|
| CStrings.FindFrom | src/get-zip-codes.c:117 | `strstr` from an offset: it returns `Some(i)` exactly when the pattern occurs at or after the offset, and `i` is then the first such occurrence |
| CStrings.Tokens | src/get-zip-codes.c:209 | the tokens `strtok_r(rest, "\n", &rest)` yields are non-empty and hold no delimiter |
| CStrings.TokensKeepText | src/get-zip-codes.c:209 | the tokens, concatenated, are exactly the text's non-delimiter characters in order: tokenising loses and reorders nothing |
| CStrings.TokensPlain | src/get-zip-codes.c:209 | a text holding no delimiter is a single token (none when empty): with `TokensAround` this makes tokens the maximal runs of non-delimiters |
| CStrings.TokensOfJoin | read_list.c:98-132 | non-empty delimiter-free pieces joined by single delimiters come back, in order, as the tokens of the joined text |
| CStrings.TokensAround | read_list.c:98-132 | text on the two sides of a delimiter is tokenised independently: the tokens of `a + "\n" + b` are those of `a` followed by those of `b` |
| CStrings.JoinSplit | read_list.c:98 | cutting a text at one delimiter loses nothing: joining the pieces back with that delimiter gives the text |
| CStrings.SplitJoin | read_list.c:132 | joining delimiter-free pieces and cutting again gives the pieces back |
| CStrings.Trim | read_list.c:109-110 | `sdstrim(s, " ")`: the result is a slice of `s` with only spaces around it, and it neither starts nor ends with a space |
| CStrings.TrimUnique | read_list.c:110 | a string has only one such trim, so the trimmed population value is determined by its slice |
| CStrings.ReadLines | get-zip-codes.c:17-18 | the buffers a `fgets(buf, 128, f)` loop fills concatenate to the whole file, each holding 1 to 127 characters |
| CStrings.LineLength | get-zip-codes.c:18 | one `fgets(buf, 128, f)` takes 1 to 127 characters, never more than are left, and stops after the first newline or when the buffer is full |
| CStrings.ReadLinesShape | get-zip-codes.c:17-18 | every buffer but the last ends in a newline or is full, and no newline sits anywhere but at a buffer's end |
| CStrings.CStringTerminated | src/get-zip-codes.c:254 | a NUL-free text followed by its NUL reads back as exactly that text |
| CStrings.CString | src/get-zip-codes.c:254 | what the string functions see of the response buffer: its prefix before the first NUL, which holds no NUL |
| Buffer.WriteCallback | src/get-zip-codes.c:159-174 | on a successful `realloc` it returns `size*nmemb`, grows `size` by that amount, keeps the old contents, appends the block and NUL-terminates; on a failed one it returns 0 and leaves the buffer unchanged |
| Buffer.Deliver | read_list.c:71-86 | after a run of successful callbacks the buffer holds the old contents followed by every block in arrival order, NUL-terminated once any block arrived |
| Buffer.CallbacksCompose | src/get-zip-codes.c:160-173 | two callbacks leave the same buffer as one callback with both blocks joined, and their return values add up |
| Buffer.FreshAsWritten | src/get-zip-codes.c:234-236 | as written: the `malloc(1)` buffer has room for its NUL and has received nothing, whatever its one byte holds |
| Buffer.NothingReceivedReadsJunk | src/get-zip-codes.c:234-236 | as written: when no block arrives, the `malloc(1)` byte is never set, so the buffer is not terminated and the page read from it is not the (empty) body |
| Buffer.Download | read_list.c:151-167 | the page the extractors read is the body received up to its first NUL, or all of it when it holds none |
| Buffer.DownloadAsWritten | src/get-zip-codes.c:234-254 | once a block has arrived, the as-written `malloc(1)` buffer and the initialised one give the same page: the two differ only when nothing arrives |
| Buffer.DownloadIsBody | read_list.c:151-153 | with the allocated byte set to NUL, the page read is exactly the body received, whether or not any block arrived |
| CountyList.SplitLine | get-zip-codes.c:19-24 | the line is the state, a comma, the county and one last character; the state holds no comma, and the two parts fit the 8- and 64-byte buffers |
| CountyList.SplitLineInverts | get-zip-codes.c:19-24 | any comma-free state, any county (later commas included) and any last character make a line that splits back into that state and county |
| CountyList.ParseFile | get-zip-codes.c:17-28 | one pair per buffer read, in file order, each obtained from its own line alone |
| CountyList.LoadList | src/get-zip-codes.c:111-131 | the harvester's list is the pairs of the file's lines in order, followed by one all-empty node |
| CountyList.Visited | src/get-zip-codes.c:271-281 | the loop of `main` works on a prefix of the list: it never reaches the closing node, and it stops before the first node with an empty state or county |
| CountyList.VisitedPrefix | src/get-zip-codes.c:271-310 | the counties the harvester visits are a prefix of the file's lines, in file order |
| CountyList.VisitsEveryLine | src/get-zip-codes.c:278-281 | when every line names a state and a county, the harvester visits every line of the file |
| ZipHarvest.Dashify | src/get-zip-codes.c:149-153 | the county keeps its length, each space becomes a dash, and every other character is unchanged |
| ZipHarvest.DashifyIdempotent | src/get-zip-codes.c:149-153 | a dashed county holds no space, and dashing it again changes nothing |
| ZipHarvest.BuildUrl | src/get-zip-codes.c:143-157 | the URL is the base, the state, `-`, the dashed county and `.asp`, and it leaves room for its NUL in the 128-byte buffer |
| ZipHarvest.ListedCountyUrlFits | src/get-zip-codes.c:144 | every node of the county list yields a URL that fits its 128-byte buffer |
| ZipHarvest.BuildUrlStable | src/get-zip-codes.c:143-157 | building the URL again from the rewritten county gives the same URL and county |
| ZipHarvest.TitleHits | src/get-zip-codes.c:214-227 | the inner loop stops only at title occurrences at or after its start, with the 21 characters it consumes inside the line, each at least 21 characters past the one before |
| ZipHarvest.TitleHitsMeetSpec | src/get-zip-codes.c:214-227 | every title occurrence at or after the start is either a hit or lies inside the 21 characters a hit consumes |
| ZipHarvest.HitsUnique | src/get-zip-codes.c:214-227 | only one sequence of positions is ascending, made of occurrences, and covering every occurrence in that way |
| ZipHarvest.TitleHitsExactly | src/get-zip-codes.c:214-227 | the positions the inner loop stops at are exactly those that specification describes |
| ZipHarvest.LineCodes | src/get-zip-codes.c:210-219 | a line without the table marker yields no code; otherwise each hit from the marker on yields the 5 characters 16 past it |
| ZipHarvest.PageCodes | src/get-zip-codes.c:209-229 | every code read from the page is exactly 5 characters long |
| ZipHarvest.PageCodesOneLine | src/get-zip-codes.c:209-213 | a page without a newline is one line, and its codes are that line's codes |
| ZipHarvest.PageCodesAround | src/get-zip-codes.c:209-229 | lines are harvested independently and in document order: the codes of `a + "\n" + b` are those of `a` followed by those of `b` |
| ZipHarvest.ProcessChunk | src/get-zip-codes.c:203-230 | one node per code found, in document order, each carrying the given state and county unchanged and a code of 1 to 7 characters, then exactly one empty node |
| ZipHarvest.CsvRow | src/get-zip-codes.c:293-294 | a row is the state, county and code with nine characters of quotes, commas and newline around them |
| ZipHarvest.CsvRowSplits | src/get-zip-codes.c:293-294 | with no quote inside a field, cutting the row at its quotes gives back the state, county and code between the separators, so a row names its node |
| ZipHarvest.CsvRows | src/get-zip-codes.c:291-303 | the output loop writes at most one row per node, and every row is the row of a node with a non-empty code |
| ZipHarvest.CountyRows | src/get-zip-codes.c:283-303 | one county yields exactly one row per code found on its page, in document order, each naming the state, the county with its spaces dashed, and that code |
| ZipHarvest.RunNone | src/get-zip-codes.c:271-313 | a run over no county writes no row |
| ZipHarvest.RunOne | src/get-zip-codes.c:271-313 | a run over one county writes exactly that county's rows |
| ZipHarvest.RunAppend | src/get-zip-codes.c:271-313 | counties are handled one after another and independently: the rows for two runs of counties are the first's followed by the second's |
| ZipHarvest.RunCons | src/get-zip-codes.c:271-313 | a run writes the first county's rows, then those of the remaining counties in visiting order |
| ZipHarvest.RowPerCode | src/get-zip-codes.c:290-303 | the output loop writes exactly one `"state","county","code"` row per code found, in order; the closing node writes none |
| ZipHarvest.RunRows | src/get-zip-codes.c:271-313 | every row written names one visited county's state, its dashed county and a code found on its page |
| ZipHarvest.ZipCodesCsv | src/get-zip-codes.c:260-313 | end to end, the counties visited are the file's first ones, up to the first line with an empty state or county, and the rows are exactly theirs, county by county in file order; when every line names a state and a county, that is every county of the file |
| ZipHarvest.EmptyCountyStops | src/get-zip-codes.c:278-281 | any file whose first line has an empty state or county is accepted whatever the server would send, and writes no row: the loop stops before any fetch |
| ZipHarvest.InsertStatement | src/get-zip-codes.c:288-297 | the formatted statement is 52 characters of fixed text plus the code, state and county |
| ZipHarvest.InsertOverrunsBuffer | src/get-zip-codes.c:288-297 | as written: the INSERT statement for a seven-letter county needs more than the 64 bytes `insert_stmt` has |
| ZipHarvest.InsertFits | src/get-zip-codes.c:288-297 | with a 130-byte buffer, the statement for any node the list can hold fits with its NUL |
| CityData.LoadList | read_list.c:37-53 | one node per whitespace-separated word of the file, each a non-empty word under 8 characters, then one node with a NULL code |
| CityData.VisitsEveryWord | read_list.c:150 | the fetch loop visits exactly the file's words, in order, and together they hold every non-whitespace character of the file |
| CityData.CodeUrl | read_list.c:155-157 | the URL is the base, the code and `.html`, and it leaves room for its NUL in the 64-byte buffer |
| CityData.ListedCodeUrlFits | read_list.c:155-157 | every code the list can hold yields a URL that fits |
| CityData.Population | read_list.c:104-112 | present exactly when the anchor is; the value is the trim of the line from the first space after the anchor's `</b>` up to the line's last 5 characters, and is under 9 characters |
| CityData.MedianIncome | read_list.c:113-121 | present exactly when the anchor is; the value runs from 4 characters past the first `</p>` after `This zip code:` up to the next `</td>`, and is under 16 characters |
| CityData.ForeignBorn | read_list.c:122-130 | present exactly when the anchor is; the value lies strictly between the first `(` after the anchor's `</b>` and the next `)`, holds no `)`, and is under 9 characters |
| CityData.LineFields | read_list.c:99-133 | one line yields one value per anchor present, and only those, each equal to its field's value, in the order population, income, foreign-born |
| CityData.ProcessLines | read_list.c:97-134 | `processLines(memory)` yields at most three values per line of the page |
| CityData.ProcessLinesOneLine | read_list.c:97-134 | a page without a newline is one line, and its values are exactly that line's |
| CityData.ProcessLinesAround | read_list.c:97-134 | lines are handled independently and in document order: the values of `a + "\n" + b` are those of `a` followed by those of `b` |
| CityData.Reports | read_list.c:150-167 | one report per code, in list order, each the values read from the page fetched for that code's URL |
| CityData.Report | read_list.c:136-177 | end to end, one report per word of the file, in file order, read from the page of `BASE_URL + word + ".html"` |

## Left out

- Network access: libcurl setup, `curl_easy_perform` and transport errors.
  The body a server sends is the parameter `fetch`.
- SQLite: opening the database, creating the table, transactions and
  `doInsert` are calls into a database library. Only the length of the INSERT
  text is modelled (see Findings).
- File I/O (`fopen`, `fclose`), `perror`/`exit`, the `printf`/`fprintf`
  diagnostics, and `usleep` pacing. Input files are given as text.
- `malloc`/`free` and `freeLinkedList`: lists are sequences.
- get_yahoo_html.py: HTTP, JSON and floating-point statistics, outside the
  C programs.
- Input holding NUL characters. `fgets` would pass them through while the
  string functions stop at them. The model treats every line as NUL-free.
- CountyList.LoadList: an empty county file is excluded by `requires`,
  because the head's `next` is then never set and `main` reads an
  uninitialised pointer.
- Buffer.WriteCallback: whether `realloc` finds memory is the parameter
  `reallocOk`. Buffer.Deliver and everything built on it assume every
  `realloc` succeeds.
- Buffer.Deliver: `size_t` wrap-around is excluded by `requires`: the body
  received stays below `SIZE_MAX`.
- Buffer.Download: the page is read from the buffer with its allocated byte
  set to NUL, the corrected buffer of the first Findings row, not the
  `malloc(1)` byte of src/get-zip-codes.c:234-236 and read_list.c:151-153.
  When no block arrives, the harvester and the city-data reader would read
  that uninitialised byte; the model reads the empty page instead.
  `Buffer.DownloadAsWritten` shows the two agree whenever a block arrives.
  `ZipHarvest.Run`, `ZipHarvest.ZipCodesCsv`, `CityData.Reports` and
  `CityData.Report` inherit this.
- ZipHarvest.Run: a failed transfer is not told apart from an empty body; the
  page is whatever blocks `fetch` returns.
- CityData.Report: the values are collected rather than printed, and the
  first loop of `main`, which only prints each code, is not modelled.

## Findings

| source | as written | input that shows it | evidently intended | confidence | as-written member | corrected member |
|---|---|---|---|---|---|---|
| src/get-zip-codes.c:234-236 | the response buffer is `malloc(1)` with `size = 0`, and its byte is only set to NUL by `writeCallback`; read_list.c:151-153 does the same | a transfer that delivers no block (an empty body, or a failure before any data) | the buffer starts as an empty C string, so the page read is the empty body | not executed | Buffer.NothingReceivedReadsJunk | Buffer.DownloadIsBody |
| src/get-zip-codes.c:296-297 | `sprintf` formats the INSERT statement into `char insert_stmt[64]` | state `AL`, county `Baldwin`, code `36507`: 66 characters plus NUL | a buffer large enough for the longest state (7), county (63) and code (7) a node holds: 130 bytes | not executed | ZipHarvest.InsertOverrunsBuffer | ZipHarvest.InsertFits |
