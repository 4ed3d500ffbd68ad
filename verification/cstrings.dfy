/** The C library string primitives both programs are built from, over
    strings modelled as `seq<char>`: a C string is the sequence of its
    characters before the terminating NUL.

    - `FindFrom` is `strstr` applied at an offset, returning an index
      instead of a pointer (`None` for NULL);
    - `Split` / `Tokens` are the pieces `strtok`, `strtok_r` and
      `fscanf("%s")` cut a text into;
    - `Trim` is `sdstrim(s, " ")`;
    - `ReadLines` is the sequence of buffers a `fgets` loop fills;
    - `CString` is what `strlen`/`strstr` see of a NUL-terminated buffer. */
module CStrings {

  datatype Option<+T> = None | Some(value: T)

  /** Concatenates a sequence of sequences, in order. */
  function Flatten<T>(parts: seq<seq<T>>): seq<T>
    decreases |parts|
  {
    if parts == [] then [] else parts[0] + Flatten(parts[1..])
  }

  lemma {:induction false} FlattenAppend<T>(a: seq<seq<T>>, b: seq<seq<T>>)
    ensures Flatten(a + b) == Flatten(a) + Flatten(b)
    decreases |a|
  {
    if a != [] {
      assert (a + b)[0] == a[0];
      assert (a + b)[1..] == a[1..] + b;
      FlattenAppend(a[1..], b);
      assert Flatten(a + b) == a[0] + Flatten(a[1..] + b);
    } else {
      assert a + b == b;
    }
  }

  // ---------------------------------------------------------------------
  // strstr

  /** `pat` occurs in `s` starting at index `i`. */
  predicate Occurs(s: seq<char>, pat: seq<char>, i: int)
  {
    0 <= i && i + |pat| <= |s| && s[i..i + |pat|] == pat
  }

  /** Some occurrence of `pat` in `s` starts at or after `from`. */
  ghost predicate ContainsFrom(s: seq<char>, pat: seq<char>, from: int)
  {
    exists i :: from <= i && Occurs(s, pat, i)
  }

  /** `i` is the first occurrence of `pat` in `s` at or after `from`. */
  ghost predicate IsFirst(s: seq<char>, pat: seq<char>, from: int, i: int)
  {
    from <= i && Occurs(s, pat, i) && forall j :: from <= j < i ==> !Occurs(s, pat, j)
  }

  /** `strstr(&s[from], pat)` as an index into `s`: the first occurrence of
      `pat` at or after `from`, or `None` (C's NULL) when there is none. */
  function FindFrom(s: seq<char>, pat: seq<char>, from: nat): (r: Option<nat>)
    requires from <= |s|
    ensures r.Some? <==> ContainsFrom(s, pat, from)
    ensures r.Some? ==> IsFirst(s, pat, from, r.value)
    decreases |s| - from
  {
    if Occurs(s, pat, from) then Some(from)
    else if from == |s| then None
    else FindFrom(s, pat, from + 1)
  }

  /** At most one index is the first occurrence from a given offset. */
  lemma FirstUnique(s: seq<char>, pat: seq<char>, from: int, i: int, k: int)
    requires IsFirst(s, pat, from, i) && IsFirst(s, pat, from, k)
    ensures i == k
  {
  }

  /** Searching for a single character: none of the characters skipped
      before the first match is that character. */
  lemma SkippedDiffer(s: seq<char>, c: char, from: nat, i: int)
    requires IsFirst(s, [c], from, i)
    ensures forall j :: from <= j < i ==> s[j] != c
  {
    forall j | from <= j < i
      ensures s[j] != c
    {
      assert !Occurs(s, [c], j);
      assert s[j..j + 1] == [s[j]];
    }
  }

  // ---------------------------------------------------------------------
  // strtok / strtok_r / fscanf("%s")

  /** No character of `s` is in `cs`. */
  predicate NoneIn(s: seq<char>, cs: set<char>)
  {
    forall i :: 0 <= i < |s| ==> s[i] !in cs
  }

  /** Number of characters of `s` that are in `cs`. */
  function CountIn(s: seq<char>, cs: set<char>): nat
    decreases |s|
  {
    if s == [] then 0 else (if s[0] in cs then 1 else 0) + CountIn(s[1..], cs)
  }

  /** `s` with every character of `cs` removed. */
  function Strip(s: seq<char>, cs: set<char>): seq<char>
    decreases |s|
  {
    if s == [] then [] else (if s[0] in cs then [] else [s[0]]) + Strip(s[1..], cs)
  }

  /** The pieces of `s` between delimiter characters, empty pieces included:
      `n` delimiters cut `s` into `n + 1` pieces, none holding a delimiter. */
  function Split(s: seq<char>, delims: set<char>): (r: seq<seq<char>>)
    ensures |r| == CountIn(s, delims) + 1
    ensures forall k :: 0 <= k < |r| ==> NoneIn(r[k], delims)
    decreases |s|
  {
    if s == [] then [[]]
    else
      var rest := Split(s[1..], delims);
      if s[0] in delims then [[]] + rest
      else [[s[0]] + rest[0]] + rest[1..]
  }

  /** Joins pieces with the delimiter `d` between consecutive ones. */
  function Join(parts: seq<seq<char>>, d: char): seq<char>
    requires |parts| >= 1
    decreases |parts|
  {
    if |parts| == 1 then parts[0] else parts[0] + [d] + Join(parts[1..], d)
  }

  /** Joining puts the delimiter between the first piece and the join of the rest. */
  lemma JoinCons(x: seq<char>, rest: seq<seq<char>>, d: char)
    requires |rest| >= 1
    ensures Join([x] + rest, d) == x + [d] + Join(rest, d)
  {
    assert ([x] + rest)[1..] == rest;
  }

  /** Splitting at one delimiter loses nothing: joining the pieces back gives `s`.
      With `SplitJoin` this makes `Split` and `Join` inverses, the piece-level
      fact `TokensOfJoin` lifts to tokens. */
  lemma {:induction false} JoinSplit(s: seq<char>, d: char)
    ensures Join(Split(s, {d}), d) == s
    decreases |s|
  {
    if s != [] {
      var rest := Split(s[1..], {d});
      JoinSplit(s[1..], d);
      if s[0] == d {
        assert Split(s, {d}) == [[]] + rest;
        assert ([[]] + rest)[1..] == rest;
      } else {
        var r := Split(s, {d});
        assert r == [[s[0]] + rest[0]] + rest[1..];
        if |rest| == 1 {
          assert s == [s[0]] + s[1..];
        } else {
          assert r[1..] == rest[1..];
          assert Join(rest, d) == rest[0] + [d] + Join(rest[1..], d);
          assert s == [s[0]] + s[1..];
        }
      }
    }
  }

  /** A delimiter in the text cuts the pieces cleanly in two. */
  lemma {:induction false} SplitAround(a: seq<char>, d: char, b: seq<char>, delims: set<char>)
    requires d in delims
    ensures Split(a + [d] + b, delims) == Split(a, delims) + Split(b, delims)
    decreases |a|
  {
    if a == [] {
      assert a + [d] + b == [d] + b;
      assert ([d] + b)[1..] == b;
    } else {
      assert (a + [d] + b)[0] == a[0];
      assert (a + [d] + b)[1..] == a[1..] + [d] + b;
      SplitAround(a[1..], d, b, delims);
    }
  }

  /** A piece free of delimiters splits into itself alone. */
  lemma {:induction false} SplitPlain(p: seq<char>, delims: set<char>)
    requires NoneIn(p, delims)
    ensures Split(p, delims) == [p]
    decreases |p|
  {
    if p != [] {
      SplitPlain(p[1..], delims);
      assert p == [p[0]] + p[1..];
    }
  }

  /** Joining delimiter-free pieces and splitting again gives the pieces back. */
  lemma {:induction false} SplitJoin(parts: seq<seq<char>>, d: char)
    requires |parts| >= 1
    requires forall k :: 0 <= k < |parts| ==> NoneIn(parts[k], {d})
    ensures Split(Join(parts, d), {d}) == parts
    decreases |parts|
  {
    SplitPlain(parts[0], {d});
    if |parts| > 1 {
      SplitJoin(parts[1..], d);
      SplitAround(parts[0], d, Join(parts[1..], d), {d});
      assert parts == [parts[0]] + parts[1..];
    }
  }

  /** The non-empty pieces, in order. */
  function NonEmpty(parts: seq<seq<char>>): (r: seq<seq<char>>)
    ensures forall k :: 0 <= k < |r| ==> r[k] != []
    ensures forall k :: 0 <= k < |r| ==> r[k] in parts
    decreases |parts|
  {
    if parts == [] then []
    else (if parts[0] == [] then [] else [parts[0]]) + NonEmpty(parts[1..])
  }

  lemma {:induction false} NonEmptyAppend(a: seq<seq<char>>, b: seq<seq<char>>)
    ensures NonEmpty(a + b) == NonEmpty(a) + NonEmpty(b)
    decreases |a|
  {
    if a != [] {
      assert (a + b)[0] == a[0];
      assert (a + b)[1..] == a[1..] + b;
      NonEmptyAppend(a[1..], b);
      var h := if a[0] == [] then [] else [a[0]];
      assert NonEmpty(a + b) == h + NonEmpty(a[1..] + b);
      assert NonEmpty(a) == h + NonEmpty(a[1..]);
    } else {
      assert a + b == b;
    }
  }

  /** The tokens `strtok` returns for the delimiter set `delims`: the maximal
      non-empty runs of non-delimiter characters, in text order. */
  function Tokens(s: seq<char>, delims: set<char>): (r: seq<seq<char>>)
    ensures forall k :: 0 <= k < |r| ==> r[k] != [] && NoneIn(r[k], delims)
  {
    var parts := Split(s, delims);
    assert forall k :: 0 <= k < |NonEmpty(parts)| ==> NonEmpty(parts)[k] in parts;
    NonEmpty(parts)
  }

  /** A text holding no delimiter is one token, or none when it is empty: a
      token is a maximal run of non-delimiters. */
  lemma TokensPlain(p: seq<char>, delims: set<char>)
    requires NoneIn(p, delims)
    ensures Tokens(p, delims) == (if p == [] then [] else [p])
  {
    SplitPlain(p, delims);
    assert NonEmpty([p]) == (if p == [] then [] else [p]) + NonEmpty([p][1..]);
  }

  /** Pieces that are all non-empty are kept as they are. */
  lemma {:induction false} NonEmptyAll(parts: seq<seq<char>>)
    requires forall k :: 0 <= k < |parts| ==> parts[k] != []
    ensures NonEmpty(parts) == parts
    decreases |parts|
  {
    if parts != [] {
      NonEmptyAll(parts[1..]);
      assert parts == [parts[0]] + parts[1..];
    }
  }

  /** Non-empty delimiter-free pieces joined by single delimiters come back
      as the tokens of the joined text. */
  lemma TokensOfJoin(parts: seq<seq<char>>, d: char)
    requires |parts| >= 1
    requires forall k :: 0 <= k < |parts| ==> parts[k] != [] && NoneIn(parts[k], {d})
    ensures Tokens(Join(parts, d), {d}) == parts
  {
    SplitJoin(parts, d);
    NonEmptyAll(parts);
  }

  /** Text on either side of a delimiter is tokenised independently. */
  lemma TokensAround(a: seq<char>, d: char, b: seq<char>, delims: set<char>)
    requires d in delims
    ensures Tokens(a + [d] + b, delims) == Tokens(a, delims) + Tokens(b, delims)
  {
    SplitAround(a, d, b, delims);
    NonEmptyAppend(Split(a, delims), Split(b, delims));
  }

  /** `f` applied to every element, in order. */
  function Map<A, B>(xs: seq<A>, f: A --> B): (r: seq<B>)
    requires forall i :: 0 <= i < |xs| ==> f.requires(xs[i])
    ensures |r| == |xs|
    ensures forall i :: 0 <= i < |xs| ==> r[i] == f(xs[i])
  {
    seq(|xs|, i requires 0 <= i < |xs| && f.requires(xs[i]) => f(xs[i]))
  }

  lemma MapAppend<A, B>(a: seq<A>, b: seq<A>, f: A --> B)
    requires forall i :: 0 <= i < |a| ==> f.requires(a[i])
    requires forall i :: 0 <= i < |b| ==> f.requires(b[i])
    ensures forall i :: 0 <= i < |a + b| ==> f.requires((a + b)[i])
    ensures Map(a + b, f) == Map(a, f) + Map(b, f)
  {
    assert forall i :: 0 <= i < |a + b| ==> (a + b)[i] == if i < |a| then a[i] else b[i - |a|];
  }

  /** Mapping a single element and flattening gives its image. */
  lemma FlattenMapSingle<A, B>(x: A, f: A --> seq<B>)
    requires f.requires(x)
    ensures Flatten(Map([x], f)) == f(x)
  {
    var parts := Map([x], f);
    assert parts == [f(x)];
    assert Flatten(parts) == f(x) + Flatten(parts[1..]);
  }

  /** Mapping and flattening a non-empty sequence gives the first element's
      image followed by the rest's. */
  lemma FlattenMapCons<A, B>(xs: seq<A>, f: A --> seq<B>)
    requires xs != []
    requires forall i :: 0 <= i < |xs| ==> f.requires(xs[i])
    ensures Flatten(Map(xs, f)) == f(xs[0]) + Flatten(Map(xs[1..], f))
  {
    var parts := Map(xs, f);
    assert parts[1..] == Map(xs[1..], f);
  }

  /** Parts of at most `m` elements each flatten to at most `m` per part. */
  lemma {:induction false} FlattenBound<T>(parts: seq<seq<T>>, m: nat)
    requires forall k :: 0 <= k < |parts| ==> |parts[k]| <= m
    ensures |Flatten(parts)| <= m * |parts|
    decreases |parts|
  {
    if parts != [] {
      FlattenBound(parts[1..], m);
      assert |parts[0]| <= m;
      assert m * |parts| == m + m * |parts[1..]|;
    }
  }

  lemma {:induction false} FlattenNonEmpty(parts: seq<seq<char>>)
    ensures Flatten(NonEmpty(parts)) == Flatten(parts)
    decreases |parts|
  {
    if parts != [] {
      FlattenNonEmpty(parts[1..]);
      FlattenAppend(if parts[0] == [] then [] else [parts[0]], NonEmpty(parts[1..]));
    }
  }

  lemma {:induction false} FlattenSplit(s: seq<char>, delims: set<char>)
    ensures Flatten(Split(s, delims)) == Strip(s, delims)
    decreases |s|
  {
    if s != [] {
      FlattenSplit(s[1..], delims);
      var rest := Split(s[1..], delims);
      assert Flatten(rest) == rest[0] + Flatten(rest[1..]);
      if s[0] !in delims {
        var r := [[s[0]] + rest[0]] + rest[1..];
        assert r[1..] == rest[1..];
      }
    }
  }

  /** The tokens hold exactly the text's non-delimiter characters, in order. */
  lemma TokensKeepText(s: seq<char>, delims: set<char>)
    ensures Flatten(Tokens(s, delims)) == Strip(s, delims)
  {
    FlattenNonEmpty(Split(s, delims));
    FlattenSplit(s, delims);
  }

  // ---------------------------------------------------------------------
  // sdstrim(s, " ")

  /** Every character of `s` from `lo` up to `hi` is a space. */
  predicate SpacesBetween(s: seq<char>, lo: int, hi: int)
  {
    forall j :: lo <= j < hi && 0 <= j < |s| ==> s[j] == ' '
  }

  /** `s` without its leading spaces. */
  function TrimLeft(s: seq<char>): (r: seq<char>)
    ensures |r| <= |s| && r == s[|s| - |r|..]
    ensures SpacesBetween(s, 0, |s| - |r|)
    ensures r == [] || r[0] != ' '
    decreases |s|
  {
    if s != [] && s[0] == ' ' then TrimLeft(s[1..]) else s
  }

  /** `s` without its trailing spaces. */
  function TrimRight(s: seq<char>): (r: seq<char>)
    ensures |r| <= |s| && r == s[..|r|]
    ensures SpacesBetween(s, |r|, |s|)
    ensures r == [] || r[|r| - 1] != ' '
    decreases |s|
  {
    if s != [] && s[|s| - 1] == ' ' then TrimRight(s[..|s| - 1]) else s
  }

  /** `r` is the slice of `s` at `i` and only spaces surround it, while `r`
      itself neither starts nor ends with one. */
  predicate TrimmedAt(s: seq<char>, r: seq<char>, i: int)
  {
    0 <= i && i + |r| <= |s| && s[i..i + |r|] == r
    && SpacesBetween(s, 0, i) && SpacesBetween(s, i + |r|, |s|)
    && (r == [] || (r[0] != ' ' && r[|r| - 1] != ' '))
  }

  ghost predicate IsTrimOf(s: seq<char>, r: seq<char>)
  {
    exists i :: TrimmedAt(s, r, i)
  }

  /** A prefix `r` of a suffix `l` of `s` sits in `s` where `l` starts, and
      what follows `r` in `l` follows it in `s`. */
  lemma PrefixOfSuffix(s: seq<char>, l: seq<char>, r: seq<char>)
    requires |l| <= |s| && l == s[|s| - |l|..]
    requires |r| <= |l| && r == l[..|r|]
    requires SpacesBetween(l, |r|, |l|)
    ensures s[|s| - |l|..|s| - |l| + |r|] == r
    ensures SpacesBetween(s, |s| - |l| + |r|, |s|)
  {
    var i := |s| - |l|;
    forall j | i + |r| <= j < |s|
      ensures s[j] == ' '
    {
      assert s[j] == l[j - i];
    }
  }

  /** `sdstrim(s, " ")`: drops leading and trailing spaces. */
  function Trim(s: seq<char>): (r: seq<char>)
    ensures IsTrimOf(s, r)
    ensures |r| <= |s|
  {
    var l := TrimLeft(s);
    var r := TrimRight(l);
    PrefixOfSuffix(s, l, r);
    assert r != [] ==> r[0] == l[0];
    assert TrimmedAt(s, r, |s| - |l|);
    r
  }

  /** A trim is determined by the string: `Trim` is the only one. */
  lemma TrimUnique(s: seq<char>, r: seq<char>, i: int, r': seq<char>, i': int)
    requires TrimmedAt(s, r, i) && TrimmedAt(s, r', i')
    ensures r == r'
  {
  }

  // ---------------------------------------------------------------------
  // fgets into a fixed buffer, and reading a buffer as a C string

  /** How many characters one `fgets(buf, cap, f)` takes from `text`: up to
      and including the first newline, at most `max == cap - 1`, at most what
      is left. */
  function LineLength(text: seq<char>, max: nat): (k: nat)
    requires max >= 1 && text != []
    ensures 1 <= k <= max && k <= |text|
    ensures forall i :: 0 <= i < k - 1 ==> text[i] != '\n'
    ensures text[k - 1] == '\n' || k == max || k == |text|
    decreases max
  {
    if text[0] == '\n' || max == 1 || |text| == 1 then 1
    else 1 + LineLength(text[1..], max - 1)
  }

  /** The successive buffers a `while (fgets(buf, cap, f) != NULL)` loop reads. */
  function ReadLines(text: seq<char>, cap: nat): (r: seq<seq<char>>)
    requires cap >= 2
    ensures Flatten(r) == text
    ensures forall k :: 0 <= k < |r| ==> 1 <= |r[k]| < cap
    decreases |text|
  {
    if text == [] then []
    else
      var k := LineLength(text, cap - 1);
      assert text == text[..k] + text[k..];
      [text[..k]] + ReadLines(text[k..], cap)
  }

  /** Every buffer but possibly the last ends in a newline or is full, and no
      newline sits anywhere but at a buffer's end. */
  ghost predicate LinesShaped(r: seq<seq<char>>, cap: nat)
  {
    forall k :: 0 <= k < |r| ==> LineShaped(r[k], cap, k == |r| - 1)
  }

  ghost predicate LineShaped(line: seq<char>, cap: nat, last: bool)
  {
    (forall i :: 0 <= i < |line| - 1 ==> line[i] != '\n')
    && (!last ==> |line| >= 1 && (line[|line| - 1] == '\n' || |line| == cap - 1))
  }

  /** The buffers a `fgets` loop reads are lines cut at newlines or at the
      buffer's capacity. */
  lemma {:induction false} ReadLinesShape(text: seq<char>, cap: nat)
    requires cap >= 2
    ensures LinesShaped(ReadLines(text, cap), cap)
    decreases |text|
  {
    if text != [] {
      var k := LineLength(text, cap - 1);
      ReadLinesShape(text[k..], cap);
      var rest := ReadLines(text[k..], cap);
      var r := ReadLines(text, cap);
      assert r == [text[..k]] + rest;
      if k == |text| {
        assert text[k..] == [];
        assert rest == [];
      }
      assert LineShaped(r[0], cap, |r| == 1);
      forall j | 1 <= j < |r|
        ensures LineShaped(r[j], cap, j == |r| - 1)
      {
        assert r[j] == rest[j - 1];
      }
    }
  }

  /** What C's string functions see of a buffer: its characters before the
      first NUL, or all of them when it holds none. */
  function CString(buf: seq<char>): (r: seq<char>)
    ensures |r| <= |buf| && r == buf[..|r|]
    ensures NoneIn(r, {'\0'})
    ensures |r| < |buf| ==> buf[|r|] == '\0'
    ensures '\0' in buf ==> |r| < |buf|
    decreases |buf|
  {
    if buf == [] || buf[0] == '\0' then [] else [buf[0]] + CString(buf[1..])
  }

  /** A NUL-free text followed by its NUL reads back as itself. */
  lemma CStringTerminated(s: seq<char>)
    requires NoneIn(s, {'\0'})
    ensures CString(s + ['\0']) == s
  {
    var buf := s + ['\0'];
    assert buf[|s|] == '\0';
    assert buf[..|s|] == s;
  }
}
