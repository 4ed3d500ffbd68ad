/** The growable response buffer both programs hand to libcurl: the
    `writeCallback` that appends each received block, and the page text the
    extractors then read out of the buffer as a C string. */
module Buffer {
  import opened CStrings

  /** `size_t` is 64 bits wide. */
  const SIZE_MAX: nat := 0xFFFF_FFFF_FFFF_FFFF

  /** A `memory_t` (`MemoryBuffer` in the city-data program): the allocation
      `memory` and the number `size` of bytes received so far. */
  datatype Memory = Memory(memory: seq<char>, size: nat)

  /** The allocation is one byte longer than what was received. */
  predicate Allocated(m: Memory)
  {
    |m.memory| == m.size + 1
  }

  /** ... and that extra byte is a NUL. */
  predicate Terminated(m: Memory)
  {
    Allocated(m) && m.memory[m.size] == '\0'
  }

  function Received(m: Memory): seq<char>
    requires Allocated(m)
  {
    m.memory[..m.size]
  }

  /** What `writeCallback` gives back to libcurl, and the buffer it leaves. */
  datatype Outcome = Outcome(buffer: Memory, returned: nat)

  /** `writeCallback(contents, size, nmemb, userp)`. `reallocOk` stands for
      whether `realloc` found memory, which the model cannot know. */
  function WriteCallback(m: Memory, contents: seq<char>, size: nat, nmemb: nat, reallocOk: bool): (r: Outcome)
    requires Allocated(m)
    requires size * nmemb == |contents|
    requires m.size + |contents| + 1 <= SIZE_MAX
    ensures reallocOk ==>
      && r.returned == size * nmemb
      && r.buffer.size == m.size + size * nmemb
      && Terminated(r.buffer)
      && Received(r.buffer) == Received(m) + contents
    ensures !reallocOk ==> r.returned == 0 && r.buffer == m
  {
    if !reallocOk then Outcome(m, 0)
    else
      var realsize := size * nmemb;
      Outcome(Memory(m.memory[..m.size] + contents + ['\0'], m.size + realsize), realsize)
  }

  /** The buffer after libcurl has handed over `blocks` one callback each
      (`size == 1`, `nmemb` the block's length), every `realloc` succeeding. */
  function Deliver(m: Memory, blocks: seq<seq<char>>): (r: Memory)
    requires Allocated(m)
    requires m.size + |Flatten(blocks)| + 1 <= SIZE_MAX
    ensures Allocated(r)
    ensures r.size == m.size + |Flatten(blocks)|
    ensures Received(r) == Received(m) + Flatten(blocks)
    ensures Terminated(m) || blocks != [] ==> Terminated(r) && r.memory == Received(r) + ['\0']
    decreases |blocks|
  {
    if blocks == [] then
      assert Terminated(m) ==> m.memory == m.memory[..m.size] + [m.memory[m.size]];
      m
    else
      var next := WriteCallback(m, blocks[0], 1, |blocks[0]|, true).buffer;
      Deliver(next, blocks[1..])
  }

  /** Two successful callbacks leave the buffer one callback with both
      blocks would leave. */
  lemma CallbacksCompose(m: Memory, a: seq<char>, b: seq<char>)
    requires Allocated(m)
    requires m.size + |a| + |b| + 1 <= SIZE_MAX
    ensures
      var once := WriteCallback(m, a + b, 1, |a + b|, true);
      var first := WriteCallback(m, a, 1, |a|, true);
      var second := WriteCallback(first.buffer, b, 1, |b|, true);
      second.buffer == once.buffer && first.returned + second.returned == once.returned
  {
  }

  /** The buffer as `getUrl` allocates it: `malloc(1)` and `size = 0`. The one
      byte is never written, so `junk` is whatever the allocator left there. */
  function FreshAsWritten(junk: char): (m: Memory)
    ensures Allocated(m) && Received(m) == []
  {
    Memory([junk], 0)
  }

  /** When no block arrives (an empty body, or a transfer that fails first)
      the buffer is not NUL-terminated, and the text read out of it is not
      what was received. */
  lemma NothingReceivedReadsJunk()
    ensures var m := Deliver(FreshAsWritten('x'), []);
      !Terminated(m) && CString(m.memory) != Received(m)
  {
  }

  /** The same allocation with its byte set to NUL. */
  function Fresh(): (m: Memory)
    ensures Terminated(m) && Received(m) == []
  {
    Memory(['\0'], 0)
  }

  /** The text the extractors read from a freshly allocated buffer after
      libcurl delivered `blocks`: the body up to its first NUL, if any. */
  function Download(blocks: seq<seq<char>>): (page: seq<char>)
    requires |Flatten(blocks)| + 1 <= SIZE_MAX
    ensures NoneIn(page, {'\0'})
    ensures |page| <= |Flatten(blocks)| && page == Flatten(blocks)[..|page|]
    ensures |page| < |Flatten(blocks)| ==> Flatten(blocks)[|page|] == '\0'
  {
    var m := Deliver(Fresh(), blocks);
    var body := Flatten(blocks);
    assert m.memory == body + ['\0'];
    var page := CString(m.memory);
    assert |page| < |m.memory|;
    assert m.memory[..|page|] == body[..|page|];
    page
  }

  /** With the buffer initialised, the page read out is exactly the body
      received, whether or not any block arrived, as long as the body holds
      no NUL. */
  lemma DownloadIsBody(blocks: seq<seq<char>>)
    requires |Flatten(blocks)| + 1 <= SIZE_MAX
    requires NoneIn(Flatten(blocks), {'\0'})
    ensures Download(blocks) == Flatten(blocks)
  {
    var m := Deliver(Fresh(), blocks);
    assert m.memory == Flatten(blocks) + ['\0'];
    CStringTerminated(Flatten(blocks));
  }

  /** Once a block has arrived, the buffer as written and the initialised one
      hold the same bytes, so the page read is the same: the two differ only
      when nothing arrives. */
  lemma DownloadAsWritten(blocks: seq<seq<char>>, junk: char)
    requires |Flatten(blocks)| + 1 <= SIZE_MAX
    requires blocks != []
    ensures CString(Deliver(FreshAsWritten(junk), blocks).memory) == Download(blocks)
  {
    var initialised := Deliver(Fresh(), blocks);
    var asWritten := Deliver(FreshAsWritten(junk), blocks);
    assert initialised.memory == Flatten(blocks) + ['\0'] == asWritten.memory;
  }
}
