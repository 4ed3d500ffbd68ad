/** The county list: each line `STATE,County Name\n` of the input file split
    at its first comma. The stand-alone program (get-zip-codes.c) prints the
    pairs line by line; the harvester (src/get-zip-codes.c) keeps them in a
    list closed by an all-empty node, and its `main` walks that list. */
module CountyList {
  import opened CStrings

  /** `char buf[128]` handed to `fgets`. */
  const LINE_BUF: nat := 128
  /** `char state[8]`. */
  const STATE_BUF: nat := 8
  /** `char county[64]` / `char county_name[64]`. */
  const COUNTY_BUF: nat := 64

  datatype County = County(state: seq<char>, county: seq<char>)

  /** The node that closes the list: both fields zeroed. */
  const Terminal := County([], [])

  /** What splitting a line needs to stay defined: a comma (else `comma_start`
      is NULL), at least one character after it (else the copy length
      `strlen(&comma_start[1]) - 1` wraps around), and both parts short enough
      to leave a NUL in their zeroed buffers. */
  predicate Splittable(line: seq<char>)
  {
    match FindFrom(line, ",", 0)
    case None => false
    case Some(c) => c + 2 <= |line| && c < STATE_BUF && |line| - c - 2 < COUNTY_BUF
  }

  /** A comma-free prefix: the first comma of the line is the one after it. */
  lemma CommaFree(line: seq<char>, c: nat)
    requires IsFirst(line, ",", 0, c)
    ensures NoneIn(line[..c], {','})
  {
    forall i | 0 <= i < c
      ensures line[i] != ','
    {
      assert !Occurs(line, ",", i);
      assert line[i..i + 1] == [line[i]];
    }
  }

  /** One line split at its first comma: the state is what precedes it, the
      county what follows it less the line's final character (the newline
      `fgets` keeps). */
  function SplitLine(line: seq<char>): (r: County)
    requires Splittable(line)
    ensures line == r.state + [','] + r.county + [line[|line| - 1]]
    ensures NoneIn(r.state, {','})
    ensures |r.state| < STATE_BUF && |r.county| < COUNTY_BUF
  {
    var c := FindFrom(line, ",", 0).value;
    CommaFree(line, c);
    assert line[c..c + 1] == [','];
    assert line == line[..c] + [','] + line[c + 1..|line| - 1] + [line[|line| - 1]];
    County(line[..c], line[c + 1..|line| - 1])
  }

  /** Any comma-free state, any county (later commas included) and any final
      character make a line that splits back into that state and county. */
  lemma {:induction false} SplitLineInverts(state: seq<char>, county: seq<char>, last: char)
    requires NoneIn(state, {','})
    requires |state| < STATE_BUF && |county| < COUNTY_BUF
    ensures var line := state + [','] + county + [last];
      Splittable(line) && SplitLine(line) == County(state, county)
  {
    var line := state + [','] + county + [last];
    assert Occurs(line, ",", |state|) by {
      assert line[|state|..|state| + 1] == [','];
    }
    forall j | 0 <= j < |state|
      ensures !Occurs(line, ",", j)
    {
      assert line[j..j + 1] == [state[j]];
    }
    assert IsFirst(line, ",", 0, |state|);
    var f := FindFrom(line, ",", 0);
    FirstUnique(line, ",", 0, f.value, |state|);
    assert line[..|state|] == state;
    assert line[|state| + 1..|line| - 1] == county;
  }

  /** Every line the input yields can be split. */
  predicate AllSplittable(lines: seq<seq<char>>)
  {
    forall k :: 0 <= k < |lines| ==> Splittable(lines[k])
  }

  /** Each line split on its own, in order. */
  function SplitAll(lines: seq<seq<char>>): (r: seq<County>)
    requires AllSplittable(lines)
    ensures |r| == |lines|
    ensures forall k :: 0 <= k < |r| ==> r[k] == SplitLine(lines[k])
    decreases |lines|
  {
    if lines == [] then [] else [SplitLine(lines[0])] + SplitAll(lines[1..])
  }

  /** The loop of the stand-alone program: every buffer `fgets` reads from the
      file is split into its own freshly zeroed `state` and `county_name`, so
      a pair depends on its own line alone and comes out in file order. */
  function ParseFile(text: seq<char>): (r: seq<County>)
    requires AllSplittable(ReadLines(text, LINE_BUF))
    ensures var lines := ReadLines(text, LINE_BUF);
      && |r| == |lines|
      && forall k :: 0 <= k < |r| ==>
           && lines[k] == r[k].state + [','] + r[k].county + [lines[k][|lines[k]| - 1]]
           && NoneIn(r[k].state, {','})
           && |r[k].state| < STATE_BUF && |r[k].county| < COUNTY_BUF
  {
    SplitAll(ReadLines(text, LINE_BUF))
  }

  /** `loadLinkedList` of the harvester: one node per line, in file order,
      then the all-empty node the last line's `next` points to. An empty file
      is excluded: the head's `next` is then never set. */
  function LoadList(text: seq<char>): (r: seq<County>)
    requires text != []
    requires AllSplittable(ReadLines(text, LINE_BUF))
    ensures |r| == |ReadLines(text, LINE_BUF)| + 1 >= 2
    ensures r[|r| - 1] == Terminal
    ensures r[..|r| - 1] == ParseFile(text)
  {
    assert ReadLines(text, LINE_BUF) != [];
    var r := ParseFile(text) + [Terminal];
    assert r[..|r| - 1] == ParseFile(text);
    r
  }

  function VisitFrom(list: seq<County>, i: nat): (r: seq<County>)
    requires i < |list|
    ensures i + |r| <= |list| - 1 && r == list[i..i + |r|]
    ensures forall k :: 0 <= k < |r| ==> r[k].state != [] && r[k].county != []
    ensures i + |r| < |list| - 1 ==> list[i + |r|].state == [] || list[i + |r|].county == []
    decreases |list| - i
  {
    if i == |list| - 1 || list[i].state == [] || list[i].county == [] then []
    else
      var rest := VisitFrom(list, i + 1);
      assert list[i..i + 1 + |rest|] == [list[i]] + rest;
      [list[i]] + rest
  }

  /** The counties the loop of the harvester's `main` works on, in order: it
      never reaches the closing node, and stops at the first node whose state
      or county is empty. */
  function Visited(list: seq<County>): (r: seq<County>)
    requires |list| >= 1
    ensures |r| <= |list| - 1 && r == list[..|r|]
    ensures forall k :: 0 <= k < |r| ==> r[k].state != [] && r[k].county != []
    ensures |r| < |list| - 1 ==> list[|r|].state == [] || list[|r|].county == []
  {
    VisitFrom(list, 0)
  }

  /** The harvester visits a prefix of the counties the file lists. */
  lemma VisitedPrefix(text: seq<char>)
    requires text != []
    requires AllSplittable(ReadLines(text, LINE_BUF))
    ensures var v := Visited(LoadList(text));
      |v| <= |ParseFile(text)| && v == ParseFile(text)[..|v|]
  {
  }

  /** When every line names a state and a county, the harvester visits the
      counties the stand-alone program prints, all of them and in order. */
  lemma VisitsEveryLine(text: seq<char>)
    requires text != []
    requires AllSplittable(ReadLines(text, LINE_BUF))
    ensures (forall c :: c in ParseFile(text) ==> c.state != [] && c.county != []) ==>
      Visited(LoadList(text)) == ParseFile(text)
  {
  }
}
